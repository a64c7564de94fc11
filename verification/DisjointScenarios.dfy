/** Calls of DisjointSequence that show where it departs from a plain set of numbers, and one that shows where not. */
module DisjointScenarios {
  import opened Basics
  import opened SequenceRanges
  import opened RangeInsertion
  import opened RangeQueries
  import opened RangeGaps
  import opened Bits
  import opened BitmapScan
  import opened BitmapDecode
  import opened BitmapExact
  import opened BitmapEncode
  import opened RangeFills
  import opened DisjointSequences
  import opened BitmapRoundTrip

  /** Inserting the present ranges one by one into an empty set rebuilds the list iff it is in normal form. */
  method RebuildFromPresent(original: DisjointSequence) returns (copy: DisjointSequence)
    requires Separated(original.sequences) && (original.sequences != [] ==> original.High() < MAX_VALUE)
    ensures fresh(copy) && Normal(copy.sequences)
    ensures forall x :: Has(copy.sequences, x) <==> Has(original.sequences, x)
    ensures copy.sequences == original.sequences <==> Normal(original.sequences)
  {
    copy := new DisjointSequence();
    var present := original.PresentSequenceRanges();
    var i := 0;
    while i < |present|
      invariant 0 <= i <= |present| && present == original.sequences && fresh(copy) && Normal(copy.sequences)
      invariant forall x :: Has(copy.sequences, x) <==> Has(present[..i], x)
    {
      InsertNext(copy, present, i);
      i := i + 1;
    }
    assert present[..i] == present;
    if Normal(original.sequences) { NormalUnique(copy.sequences, original.sequences); }
  }

  method InsertNext(copy: DisjointSequence, present: seq<SequenceRange>, i: nat)
    requires Separated(present) && i < |present| && present[|present| - 1].second < MAX_VALUE
    requires Normal(copy.sequences) && forall x :: Has(copy.sequences, x) <==> Has(present[..i], x)
    modifies copy
    ensures Normal(copy.sequences) && forall x :: Has(copy.sequences, x) <==> Has(present[..i + 1], x)
  {
    ghost var before := copy.sequences;
    Below(present);
    if before != [] { LastBelow(before, present, i); }
    hide Has, Separated, Normal;
    var result, gaps := copy.InsertI(present[i], false);
    forall x ensures Has(copy.sequences, x) <==> Has(present[..i + 1], x) {
      assert Has(copy.sequences, x) <==> Has(before, x) || present[i].first <= x <= present[i].second;
      HasPrefix(present, i, x);
    }
  }

  lemma Below(s: seq<SequenceRange>)
    requires Separated(s) && s != []
    ensures forall i :: 0 <= i < |s| ==> s[i].first <= s[i].second <= s[|s| - 1].second
  {
    forall i | 0 <= i < |s| - 1 ensures s[i].second <= s[|s| - 1].second { assert Apart(s[i], s[|s| - 1]); }
  }

  lemma LastBelow(s: seq<SequenceRange>, present: seq<SequenceRange>, i: nat)
    requires Separated(s) && s != [] && Separated(present) && i < |present|
    requires forall x :: Has(s, x) <==> Has(present[..i], x)
    ensures s[|s| - 1].second <= present[|present| - 1].second
  {
    Below(present);
    assert Has(s, s[|s| - 1].second) by { assert s[|s| - 1].first <= s[|s| - 1].second; }
    var k :| 0 <= k < |present[..i]| && present[..i][k].first <= s[|s| - 1].second <= present[..i][k].second;
    assert present[..i][k] == present[k];
  }

  lemma HasPrefix(s: seq<SequenceRange>, n: nat, x: int)
    requires n < |s|
    ensures Has(s[..n + 1], x) <==> Has(s[..n], x) || s[n].first <= x <= s[n].second
  {
    var t := s[..n + 1];
    assert t[n] == s[n] && forall i :: 0 <= i < n ==> t[i] == s[..n][i];
  }

  lemma FirstBitOnly(words: seq<bv32>)
    requires words == [0x8000_0000]
    ensures BitAt(words, 0) && !BitAt(words, 1) && !ZeroWord(words, 0)
  {
    assert Bit(0x8000_0000, 0) && !Bit(0x8000_0000, 1);
  }

  function Unmerged(): seq<SequenceRange> { [SequenceRange(0, 0), SequenceRange(1, 1)] }

  lemma UnmergedForm()
    ensures Separated(Unmerged()) && !Normal(Unmerged()) && Has(Unmerged(), 1)
  {
    NormalIffZeroMerged(Unmerged());
    assert Unmerged()[1].first <= 1 <= Unmerged()[1].second;
  }

  /** The list that decoding bit 0 at base 1 leaves next to [0..0]. */
  lemma UnmergedList(bits: seq<bv32>, t: seq<SequenceRange>)
    requires |bits| == 1 && BitAt(bits, 0) && Separated(t)
    requires forall x :: Has(t, x) <==> Decoded([SequenceRange(0, 0)], 1, bits, 1, x)
    requires !Normal(t)
    ensures t == Unmerged()
  {
    UnmergedForm();
    forall x ensures Has(t, x) <==> Has(Unmerged(), x) {
      HasCons(Unmerged(), x);
      HasCons(Unmerged()[1..], x);
      HasCons([SequenceRange(0, 0)], x);
    }
    SeparatedUnique(t, Unmerged());
  }

  /** Number 0, then a bitmap for number 1: the two are not merged. */
  method ReachUnmerged() returns (numbers: DisjointSequence)
    ensures fresh(numbers) && numbers.sequences == Unmerged()
  {
    hide ScanAt, Decoded, ReadsPast, Row;
    numbers := new DisjointSequence();
    var result, gaps := numbers.InsertI(SequenceRange(0, 0), false);
    assert numbers.sequences == [SequenceRange(0, 0)];
    var bits := [0x8000_0000];
    FirstBitOnly(bits);
    var inserted, past := numbers.InsertBitmap(1, 1, bits);
    UnmergedList(bits, numbers.sequences);
  }

  /** On that list the set reports a gap that is not there, acknowledges only up to 0 although 1 is present, reports
      everything from 1 on as missing, and encodes its gaps as all ones. */
  method UnmergedZero()
    returns (numbers: DisjointSequence, missing: seq<SequenceRange>, bitmap: array<bv32>, ok: bool)
    ensures numbers.sequences == Unmerged() && Separated(Unmerged())
    ensures numbers.CumulativeAck() == 0 && Has(numbers.sequences, 1)
    ensures numbers.Disjoint() && numbers.Low() == 0 && numbers.High() == 1
    ensures missing != [] && missing[0] == SequenceRange(1, MAX_VALUE)
    ensures bitmap.Length == 1 && !ok && BitAt(bitmap[..], 0) && !Wanted(numbers.sequences, true, 0)
  {
    numbers := ReachUnmerged();
    UnmergedForm();
    hide Row, Has, IsGap, Encodes, Fills;
    missing := numbers.MissingSequenceRanges();
    bitmap := new bv32[1];
    var numBits;
    ok, numBits := numbers.ToBitmap(bitmap, true);
  }

  /** Inserting a range above all others appends it. */
  lemma {:induction false} InsertedAbove(s: seq<SequenceRange>, r: SequenceRange)
    requires forall i :: 0 <= i < |s| ==> s[i].second + 1 < r.first
    ensures Inserted(s, r) == s + [r]
  {
    if s != [] {
      InsertedAbove(s[1..], r);
      assert s == [s[0]] + s[1..];
    }
  }

  /** Inserts single numbers in ascending order, no two of them adjacent. */
  method InsertSingles(xs: seq<nat>) returns (numbers: DisjointSequence)
    requires forall i :: 0 <= i < |xs| ==> xs[i] < MAX_VALUE
    requires forall i, j :: 0 <= i < j < |xs| ==> xs[i] + 1 < xs[j]
    ensures fresh(numbers) && numbers.sequences == Singles(xs) && Normal(numbers.sequences)
  {
    numbers := new DisjointSequence();
    var i := 0;
    while i < |xs|
      invariant 0 <= i <= |xs| && fresh(numbers) && Normal(numbers.sequences) && numbers.sequences == Singles(xs)[..i]
    {
      var r := SequenceRange(xs[i], xs[i]);
      assert Singles(xs)[..i + 1] == Singles(xs)[..i] + [r];
      InsertedAbove(numbers.sequences, r);
      var result, gaps := numbers.InsertI(r, false);
      i := i + 1;
    }
    assert Singles(xs)[..i] == Singles(xs);
  }

  function Singles(xs: seq<nat>): (s: seq<SequenceRange>)
    ensures |s| == |xs| && forall i :: 0 <= i < |xs| ==> s[i] == SequenceRange(xs[i], xs[i])
  {
    seq(|xs|, i requires 0 <= i < |xs| => SequenceRange(xs[i], xs[i]))
  }

  /** Members 1, 3, 40 and 80, encoded into a buffer of ones: besides the bits of 3, 40 and 80, bits 39 to 63 are 1, of
      which bit 39 stands for 41. */
  method StaleBit() returns (numbers: DisjointSequence, bitmap: array<bv32>, ok: bool, numBits: nat)
    ensures numbers.sequences == Sparse()
    ensures bitmap.Length == 3 && numBits == 79
    ensures forall k :: 0 <= k < 79 ==> (BitAt(bitmap[..], k) <==> k == 1 || k == 38 || k == 78 || 39 <= k <= 63)
    ensures Base(numbers.sequences) + 39 == 41 && !Has(numbers.sequences, 41)
  {
    hide Row, Fills, Covered, Stale, Encodes, Has;
    numbers := InsertSingles([1, 3, 40, 80]);
    assert numbers.sequences == Sparse();
    bitmap := new bv32[3](i => 0xFFFF_FFFF);
    ghost var orig := bitmap[..];
    SparseFills();
    ok, numBits := numbers.ToBitmap(bitmap, false);
    StaleStays(orig, bitmap[..], numBits);
  }

  /** Members 1, 33 and 100: bit 31 is set and the word after it is zero, so 34 and more come back with them. */
  method NotRebuilt() returns (numbers: DisjointSequence, copy: DisjointSequence)
    ensures numbers.sequences == Singles([1, 33, 100]) && copy.sequences != numbers.sequences
  {
    hide Row, Has, Tells;
    numbers := InsertSingles([1, 33, 100]);
    var bitmap := new bv32[4](i => 0);
    var ok, numBits;
    assert (numbers.sequences[1].second - Base(numbers.sequences)) % 32 == 31;
    copy, ok, numBits := RoundTrip(numbers, bitmap);
    FitsInFour(bitmap[..], numBits, ok);
  }

  lemma FitsInFour(bits: seq<bv32>, n: nat, ok: bool)
    requires |bits| == 4 && Tells(Singles([1, 33, 100]), false, bits, n, ok)
    ensures ok
  {
    var s := Singles([1, 33, 100]);
    forall k: nat | 128 <= k ensures !Wanted(s, false, k) {}
  }

  /** The third bit from the left, 0x2000_0000, of a bitmap at 10 is number 12. */
  method ThirdBit() returns (numbers: DisjointSequence)
    ensures numbers.sequences == [SequenceRange(12, 12)]
  {
    hide Row, Number, Power2, HiddenZero, Decoded, ReadsPast;
    numbers := new DisjointSequence();
    var inserted, past := numbers.InsertBitmap(10, 4, [0x2000_0000]);
    ThirdDigit();
    assert Normal(numbers.sequences) by { NotHidden(numbers.sequences); }
    var s := [SequenceRange(12, 12)];
    forall x ensures Has(numbers.sequences, x) <==> Has(s, x) {
      assert Has(s, x) <==> s[0].first <= x <= s[0].second;
      if 10 <= x < 14 { assert (x - 10) / 32 == 0 && (x - 10) % 32 == x - 10; }
    }
    NormalUnique(numbers.sequences, s);
  }

  lemma NotHidden(s: seq<SequenceRange>)
    requires Separated(s) && !Has(s, 0)
    ensures Normal(s)
  {
    NormalIffZeroMerged(s);
  }

  lemma ThirdDigit()
    ensures Number(0x2000_0000) / Power2(31) % 2 == 0 && Number(0x2000_0000) / Power2(30) % 2 == 0
    ensures Number(0x2000_0000) / Power2(29) % 2 == 1 && Number(0x2000_0000) / Power2(28) % 2 == 0
  {
    assert Power2(7) == 128 && Power2(14) == 128 * 128 && Power2(21) == 128 * 128 * 128;
    assert Power2(28) == 0x1000_0000;
    assert Power2(29) == 0x2000_0000 && Power2(30) == 0x4000_0000 && Power2(31) == 0x8000_0000;
    assert Number(0x2000_0000) == 0x2000_0000;
  }

  /** Bit 0 of a bitmap at 10 next to the members 11 to 100: after inserting 10 the decoder skips to 100 and reads a
      word past the only one. */
  method PastTheBitmap() returns (numbers: DisjointSequence, past: bool)
    ensures past
  {
    hide Row, ReadsPast, IndexFits32;
    numbers := Holding(SequenceRange(11, 100));
    var bits := [0x8000_0000];
    FirstBitOnly(bits);
    OnlyOneWord(bits);
    var inserted;
    inserted, past := numbers.InsertBitmap(10, 2, bits);
  }

  lemma OnlyOneWord(bits: seq<bv32>)
    requires bits == [0x8000_0000]
    ensures ReadsPast([SequenceRange(11, 100)], 10, bits, 2) && IndexFits32([SequenceRange(11, 100)], 10, 2)
  {
    hide Row, ReadsPast;
    FirstBitOnly(bits);
    var s := [SequenceRange(11, 100)];
    assert RunsCloseBeforeZeroWords(bits, 2);
    forall x | 11 <= x <= 42 ensures Has(s, x) { assert s[0].first <= x <= s[0].second; }
    assert One(10, bits, 1 - 1) && !One(10, bits, 1) && Reaches(s, 10 + 1, 10 + 32 * |bits|);
    ReadsPastIffRunEndsPast(s, 10, bits, 2);
  }

  /** The numbers 3 to 5 are lost when 4 up to the largest number is inserted into a set that ends there too. */
  method LostAtTheEnd() returns (numbers: DisjointSequence, result: InsertResult)
    ensures numbers.sequences == [SequenceRange(10, 0x7FFF_FFFF_FFFF_FFFF)] && result == Accepted(true)
  {
    numbers := Holding(SequenceRange(3, 5));
    InsertedAbove(numbers.sequences, SequenceRange(10, MAX_VALUE));
    var gaps;
    result, gaps := numbers.InsertI(SequenceRange(10, MAX_VALUE), false);
    assert numbers.sequences == [SequenceRange(3, 5), SequenceRange(10, MAX_VALUE)];
    result, gaps := numbers.InsertI(SequenceRange(4, MAX_VALUE), false);
  }

  lemma StaleStays(orig: seq<bv32>, cur: seq<bv32>, numBits: nat)
    requires Fillable(Sparse(), false) && Encodes(Fills(Sparse(), false), orig, cur, numBits)
    requires |orig| == 3 && forall w :: 0 <= w < 3 ==> orig[w] == 0xFFFF_FFFF
    ensures numBits == 79 && !Has(Sparse(), 41)
    ensures forall k :: 0 <= k < 79 ==> (BitAt(cur, k) <==> k == 1 || k == 38 || k == 78 || 39 <= k <= 63)
  {
    hide Row, Fills, Covered, Stale;
    SparseFills();
    forall k: nat ensures Covered(Fills(Sparse(), false), k) <==> k == 1 || k == 38 || k == 78 { SparseCovered(k); }
    forall k: nat | k < 79 ensures Stale(Fills(Sparse(), false), k) <==> 39 <= k <= 63 { SparseStale(k); }
    assert 79 <= numBits by { assert Covered(Fills(Sparse(), false), 78); }
    assert numBits <= 79 by { assert Covered(Fills(Sparse(), false), numBits - 1); }
    ConstantRows();
    assert forall k :: 0 <= k < 96 ==> BitAt(orig, k);
  }

  lemma SparseCovered(k: nat)
    ensures Covered([Fill(1, 1), Fill(38, 38), Fill(78, 78)], k) <==> k == 1 || k == 38 || k == 78
  {
    var fills := [Fill(1, 1), Fill(38, 38), Fill(78, 78)];
    assert fills[0].low <= k <= fills[0].high <==> k == 1;
    assert fills[1].low <= k <= fills[1].high <==> k == 38;
    assert fills[2].low <= k <= fills[2].high <==> k == 78;
  }

  lemma SparseStale(k: nat)
    requires k < 79
    ensures Stale([Fill(1, 1), Fill(38, 38), Fill(78, 78)], k) <==> 39 <= k <= 63
  {
    var fills := [Fill(1, 1), Fill(38, 38), Fill(78, 78)];
    assert fills[0].high / 32 == 0 && fills[1].low / 32 == fills[1].high / 32 == 1 && fills[2].low / 32 == 2;
    if k / 32 == 0 {
      assert !Dirty(fills, 0);
    } else if k / 32 == 1 {
      assert Dirty(fills, 1) && (PastFills(fills, k) <==> fills[1].high < k);
    } else {
      assert k / 32 == 2 && !PastFills(fills, k);
    }
  }

  function Sparse(): seq<SequenceRange> {
    [SequenceRange(1, 1), SequenceRange(3, 3), SequenceRange(40, 40), SequenceRange(80, 80)]
  }

  lemma SparseFills()
    ensures Normal(Sparse()) && Fillable(Sparse(), false)
    ensures Fills(Sparse(), false) == [Fill(1, 1), Fill(38, 38), Fill(78, 78)]
  {
  }

  /** A range that ends 2^32 - 1 past the base: ending the run of bit 0 skips to index 2^32 - 1, which the loop then
      increments to 0. The set is unchanged and the iterator is back at the same range, so each pass over the bitmap
      10... ends where the next one starts. */
  method SkipAheadRestarts(numbers: DisjointSequence, value: nat, start: nat) returns (iter: nat, grew: bool, i: nat)
    requires 1 <= value && value + 0xFFFF_FFFF < MAX_VALUE && start <= 1
    requires numbers.sequences == [SequenceRange(value, value + 0xFFFF_FFFF)]
    modifies numbers
    ensures numbers.sequences == old(numbers.sequences) && !grew && iter == 0 && i == 0
    ensures !IndexFits32(numbers.sequences, value, 2)
  {
    iter, grew := numbers.InsertBitmapRange(start, SequenceRange(value, value));
    var nextI := (numbers.sequences[iter].second - value) % 0x1_0000_0000;
    i := (nextI + 1) % 0x1_0000_0000;
  }

  /** Asked for the gaps, inserting 3..10 into 5..8 does not report what is new, and inserting 1 runs off the list. */
  method MisreportedGaps() returns (gaps: seq<SequenceRange>, result: InsertResult)
    ensures !ReportsExactly([SequenceRange(5, 8)], SequenceRange(3, 10), gaps) && result == Overrun
  {
    hide Inserts, ReportsExactly;
    var first := Holding(SequenceRange(5, 8));
    var accepted;
    accepted, gaps := first.InsertI(SequenceRange(3, 10), true);
    var second := Holding(SequenceRange(5, 8));
    var none;
    assert Has(second.sequences, 8) by { assert second.sequences[0].first <= 8 <= second.sequences[0].second; }
    result, none := second.InsertI(SequenceRange(1, 1), true);
  }
}
