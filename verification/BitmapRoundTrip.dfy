/** DisjointSequence::to_bitmap followed by the bitmap insert. */
module BitmapRoundTrip {
  import opened SequenceRanges
  import opened RangeQueries
  import opened RangeGaps
  import opened Bits
  import opened BitmapScan
  import opened BitmapValues
  import opened BitmapDecode
  import opened BitmapEncode
  import opened RangeFills
  import opened DisjointSequences

  /** What encoding into a zeroed buffer promises the decoder. */
  lemma ReadyToDecode(s: seq<SequenceRange>, zeros: seq<bv32>, cur: seq<bv32>, n: nat, ok: bool)
    requires Separated(s) && s != [] && s[|s| - 1].second < MAX_VALUE
    requires |cur| == |zeros| && forall w :: 0 <= w < |zeros| ==> zeros[w] == 0
    requires if |s| > 1 then Outcome(s, false, zeros, cur, n, ok) else ok && n == 0
    ensures Tells(s, false, cur, n, ok) && Normal([s[0]]) && (0 < n ==> Wanted(s, false, n - 1))
    ensures Base(s) + n <= MAX_VALUE && IndexFits32([s[0]], Base(s), n)
  {
    if |s| > 1 { FilledTells(s, false, zeros, cur, n, ok); }
    HighIsGreatest(s);
    if 0 < n { assert Has(s, Base(s) + (n - 1)); }
  }

  /** Some range above the lowest ends where a word of the bitmap ends, and a word or more of numbers after it are
      missing although there are members above. */
  ghost predicate Interrupted(s: seq<SequenceRange>)
    requires s != []
  {
    exists i :: 1 <= i < |s| - 1 && (s[i].second - Base(s)) % 32 == 31 && s[i].second + 32 < s[i + 1].first
  }

  /** The bitmap of a set that fits has an all-zero word after a word ending in 1 iff the set is interrupted. */
  lemma RunsCloseIff(s: seq<SequenceRange>, bits: seq<bv32>, n: nat)
    requires Separated(s) && s != [] && Tells(s, false, bits, n, true) && (0 < n ==> Wanted(s, false, n - 1))
    ensures RunsCloseBeforeZeroWords(bits, n) <==> !Interrupted(s)
  {
    hide Row, Separated;
    if !RunsCloseBeforeZeroWords(bits, n) {
      var w :| 1 <= w < |bits| && 32 * w < n && ZeroWord(bits, 32 * w) && BitAt(bits, 32 * w - 1);
      ZeroWordInterrupts(s, bits, n, w);
    }
    if Interrupted(s) {
      var i :| 1 <= i < |s| - 1 && (s[i].second - Base(s)) % 32 == 31 && s[i].second + 32 < s[i + 1].first;
      InterruptionShows(s, bits, n, i);
    }
  }

  /** A member at the end of a word, nothing for a word after it, and a member above. */
  lemma InterruptedAt(s: seq<SequenceRange>, x: nat, above: nat)
    requires Separated(s) && s != [] && Base(s) <= x && (x - Base(s)) % 32 == 31 && Has(s, x)
    requires (forall y :: x < y <= x + 32 ==> !Has(s, y)) && x + 32 < above && Has(s, above)
    ensures Interrupted(s)
  {
    var i := EndingAt(s, x);
    FollowedBy(s, i, above);
    hide Has, Separated;
    assert !(x < s[i + 1].first <= x + 32);
  }

  lemma EndingAt(s: seq<SequenceRange>, x: nat) returns (i: nat)
    requires Has(s, x) && !Has(s, x + 1)
    ensures i < |s| && s[i].second == x
  {
    i :| 0 <= i < |s| && s[i].first <= x <= s[i].second;
  }

  lemma FollowedBy(s: seq<SequenceRange>, i: nat, above: nat)
    requires Separated(s) && i < |s| && s[i].second < above && Has(s, above)
    ensures i + 1 < |s| && s[i].second < s[i + 1].first && Has(s, s[i + 1].first)
  {
    assert forall k :: 0 <= k < i ==> Apart(s[k], s[i]) && s[i].first <= s[i].second;
    var j :| 0 <= j < |s| && s[j].first <= above <= s[j].second;
    assert i < j;
    assert Apart(s[i], s[i + 1]) && s[i + 1].first <= s[i + 1].second;
  }

  lemma ZeroWordInterrupts(s: seq<SequenceRange>, bits: seq<bv32>, n: nat, w: nat)
    requires Separated(s) && s != [] && 1 <= n && Tells(s, false, bits, n, true) && Wanted(s, false, n - 1)
    requires 1 <= w < |bits| && 32 * w < n && ZeroWord(bits, 32 * w) && BitAt(bits, 32 * w - 1)
    ensures Interrupted(s)
  {
    hide Row, Separated, Interrupted;
    var base := Base(s);
    LastBitBeyond(bits, n, w);
    forall x | base + 32 * w <= x <= base + 32 * w + 31 ensures !Has(s, x) {
      var k := x - base;
      assert k / 32 == w;
      ZeroWordHasNoBits(bits, k);
      assert Wanted(s, false, k) <==> Has(s, x);
    }
    assert Wanted(s, false, 32 * w - 1);
    InterruptedAt(s, base + (32 * w - 1), base + (n - 1));
  }

  /** The last bit is 1, so it lies beyond an all-zero word. */
  lemma LastBitBeyond(bits: seq<bv32>, n: nat, w: nat)
    requires 1 <= n <= 32 * |bits| && BitAt(bits, n - 1) && 32 * w < n && w < |bits| && ZeroWord(bits, 32 * w)
    ensures 32 * w + 32 <= n - 1
  {
    BitMeansNonZero(bits, n - 1);
  }

  lemma InterruptionShows(s: seq<SequenceRange>, bits: seq<bv32>, n: nat, i: nat)
    requires Separated(s) && s != [] && Tells(s, false, bits, n, true)
    requires 1 <= i < |s| - 1 && (s[i].second - Base(s)) % 32 == 31 && s[i].second + 32 < s[i + 1].first
    ensures !RunsCloseBeforeZeroWords(bits, n)
  {
    hide Row;
    var base := Base(s);
    assert Apart(s[0], s[i]) && s[i].first <= s[i].second && s[i + 1].first <= s[i + 1].second;
    var w := (s[i].second - base + 1) / 32;
    assert 32 * w == s[i].second - base + 1 && 1 <= w;
    assert Has(s, s[i].second) && Has(s, s[i + 1].first);
    assert Wanted(s, false, s[i + 1].first - base) && Wanted(s, false, 32 * w - 1);
    assert 32 * w + 31 < n;
    ZeroAfter(s, bits, n, i, w);
    assert ZeroWord(bits, 32 * w) && BitAt(bits, 32 * w - 1);
  }

  /** A word for numbers between two ranges is zero. */
  lemma ZeroAfter(s: seq<SequenceRange>, bits: seq<bv32>, n: nat, i: nat, w: nat)
    requires i + 1 < |s| && Separated(s) && Tells(s, false, bits, n, true) && w < |bits| && 32 * w + 31 < n
    requires s[i].second < Base(s) + 32 * w && Base(s) + 32 * w + 31 < s[i + 1].first
    ensures ZeroWord(bits, 32 * w)
  {
    hide Row, Separated;
    forall k | 32 * w <= k < 32 * w + 32 ensures !BitAt(bits, k) {
      NothingBetween(s, i + 1, s[i + 1].first - 1, Base(s) + k);
      assert !Wanted(s, false, k);
    }
    ZeroWordByBits(bits, w);
  }

  lemma ZeroWordByBits(bits: seq<bv32>, w: nat)
    requires w < |bits| && forall k :: 32 * w <= k < 32 * w + 32 ==> !BitAt(bits, k)
    ensures ZeroWord(bits, 32 * w)
  {
    hide Row;
    forall b | 0 <= b < 32 ensures !Row(bits[w])[b] {
      assert !BitAt(bits, 32 * w + b);
      assert (32 * w + b) / 32 == w && (32 * w + b) % 32 == b;
    }
    NoOnes(bits[w]);
    assert 32 * w / 32 == w;
  }

  /** Decoding such a bitmap above the lowest range. */
  lemma Rebuilt(s: seq<SequenceRange>, bits: seq<bv32>, n: nat, t: seq<SequenceRange>)
    requires Separated(s) && s != [] && Tells(s, false, bits, n, true) && Separated(t)
    requires forall x :: Has(t, x) <==> Decoded([s[0]], Base(s), bits, n, x)
    requires Normal(t) <==> !(1 < Base(s) + n && HiddenZero([s[0]], Base(s), bits))
    ensures t == s <==> RunsCloseBeforeZeroWords(bits, n)
  {
    var lowest := [s[0]];
    forall x | Base(s) <= x ensures !Has(lowest, x) { }
    ExactIffRunsClose(lowest, Base(s), bits, n);
    if RunsCloseBeforeZeroWords(bits, n) {
      RebuiltMembers(s, bits, n, t);
      RebuiltForm(s, bits, n, t);
      SeparatedUnique(s, t);
    } else {
      var k :| 0 <= k < n && !(Marked(lowest, Base(s), bits, k) <==> BitAt(bits, k));
      assert Has(t, Base(s) + k) by { assert Base(s) + k - Base(s) == k; }
      assert !Has(s, Base(s) + k);
    }
  }

  lemma RebuiltMembers(s: seq<SequenceRange>, bits: seq<bv32>, n: nat, t: seq<SequenceRange>)
    requires Separated(s) && s != [] && Tells(s, false, bits, n, true)
    requires forall x :: Has(t, x) <==> Decoded([s[0]], Base(s), bits, n, x)
    requires forall k :: 0 <= k < n ==> (Marked([s[0]], Base(s), bits, k) <==> BitAt(bits, k))
    ensures forall x :: Has(t, x) <==> Has(s, x)
  {
    hide Marked, BitAt;
    forall x ensures Has(t, x) <==> Has(s, x) {
      HasCons(s, x);
      HasTail(s, x);
      HasCons([s[0]], x);
      if Base(s) <= x { assert Wanted(s, false, x - Base(s)) <==> Has(s, x); }
    }
  }

  /** The copy leaves 0 unmerged exactly when the original does. */
  lemma RebuiltForm(s: seq<SequenceRange>, bits: seq<bv32>, n: nat, t: seq<SequenceRange>)
    requires Separated(s) && s != [] && Tells(s, false, bits, n, true)
    requires Normal(t) <==> !(1 < Base(s) + n && HiddenZero([s[0]], Base(s), bits))
    ensures Normal(t) <==> Normal(s)
  {
    HoleAfterLowest(s);
    NormalIffZeroMerged(s);
    assert Wanted(s, false, 0) <==> Has(s, Base(s) + 0);
  }

  /** A set that holds one range. */
  method Holding(range: SequenceRange) returns (numbers: DisjointSequence)
    requires range.first <= range.second < MAX_VALUE
    ensures fresh(numbers) && numbers.sequences == [range]
  {
    numbers := new DisjointSequence();
    var result, gaps := numbers.InsertI(range, false);
    assert Inserted([], range) == [range];
  }

  /** Encodes a set into a zeroed buffer, then decodes the bitmap into a set that holds only the lowest range. If
      everything fitted, this rebuilds the original list iff no all-zero word follows a word ending in 1, that is, iff
      the set is not interrupted. */
  method RoundTrip(original: DisjointSequence, bitmap: array<bv32>)
    returns (copy: DisjointSequence, ok: bool, numBits: nat)
    requires Separated(original.sequences) && original.sequences != [] && original.High() < MAX_VALUE
    requires bitmap.Length <= 0x03FF_FFFF && original.High() - original.CumulativeAck() < 0x1_0000_0000
    requires forall w :: 0 <= w < bitmap.Length ==> bitmap[w] == 0
    modifies bitmap
    ensures fresh(copy) && original.sequences == old(original.sequences)
    ensures Tells(original.sequences, false, bitmap[..], numBits, ok)
    ensures ok ==> (copy.sequences == original.sequences <==> RunsCloseBeforeZeroWords(bitmap[..], numBits))
    ensures ok ==> (copy.sequences == original.sequences <==> !Interrupted(original.sequences))
  {
    hide Encodes, Fills, Wanted, Decoded, HiddenZero, IndexFits32, RunsCloseBeforeZeroWords, Outcome, Tells;
    hide ReadsPast, Interrupted, DigitsTell, AddsDigits, EvenBeforeZero, Zeroed, Has;
    ghost var s := original.sequences;
    var lowest := original.sequences[0];
    copy := Holding(lowest);
    ghost var zeros := bitmap[..];
    ok, numBits := original.ToBitmap(bitmap, false);
    ReadyToDecode(s, zeros, bitmap[..], numBits, ok);
    var grew, past := copy.InsertBitmap(lowest.second + 1, numBits, bitmap[..]);
    if ok {
      Rebuilt(s, bitmap[..], numBits, copy.sequences);
      RunsCloseIff(s, bitmap[..], numBits);
    }
  }
}
