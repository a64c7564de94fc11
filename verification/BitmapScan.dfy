/** What the bitmap decoder of DisjointSequence does position by position, independent of how it jumps.

    Two shortcuts make it differ from plain bit-by-bit insertion. A run of ones ended by a zero bit whose number
    was already in the set makes the decoder skip the rest of that number's range. And an all-zero word is stepped
    over without ending an open run, so the run spills into it. */
module BitmapScan {
  import opened SequenceRanges
  import opened Bits

  /** open: a run of ones has started and has not been inserted yet.  skipping: the position is jumped over. */
  datatype Scan = Scan(open: bool, skipping: bool)

  predicate ZeroWord(bits: seq<bv32>, k: nat)
    requires k < 32 * |bits|
  {
    bits[k / 32] == 0
  }

  /** Bit k starts or continues a run. Number 0 cannot: the decoder's range_start of 0 means that no run is open. */
  predicate One(base: nat, bits: seq<bv32>, k: nat)
    requires k < 32 * |bits|
  {
    BitAt(bits, k) && base + k != 0
  }

  /** All numbers from .. to are members. */
  ghost predicate Reaches(s: seq<SequenceRange>, from: int, to: int) {
    forall x :: from <= x <= to ==> Has(s, x)
  }

  /** The decoder's state on reaching position k, when bits are inserted at base into the set s. */
  ghost function ScanAt(s: seq<SequenceRange>, base: nat, bits: seq<bv32>, k: nat): Scan
    requires k <= 32 * |bits|
  {
    if k == 0 then Scan(false, false)
    else
      var before, zero, one := ScanAt(s, base, bits, k - 1), ZeroWord(bits, k - 1), One(base, bits, k - 1);
      var covered := before.open && !zero && !one && Has(s, base + k - 1);
      Scan(!before.skipping && if zero then before.open else one,
           Has(s, base + k) && (before.skipping || covered))
  }

  /** Bit k ends an open run. */
  ghost predicate Closes(s: seq<SequenceRange>, base: nat, bits: seq<bv32>, k: nat)
    requires k < 32 * |bits|
  {
    ScanAt(s, base, bits, k).open && !ZeroWord(bits, k) && !One(base, bits, k)
  }

  /** Position k lies in an all-zero word that an open run runs into. */
  ghost predicate Spilled(s: seq<SequenceRange>, base: nat, bits: seq<bv32>, k: nat)
    requires k < 32 * |bits|
  {
    ZeroWord(bits, k) && ScanAt(s, base, bits, k).open
  }

  /** The decoder puts base + k into the set. */
  ghost predicate Marked(s: seq<SequenceRange>, base: nat, bits: seq<bv32>, k: nat)
    requires k < 32 * |bits|
  {
    One(base, bits, k) || Spilled(s, base, bits, k)
  }

  /** x belongs to s or is marked among the first n bits. */
  ghost predicate Decoded(s: seq<SequenceRange>, base: nat, bits: seq<bv32>, n: nat, x: int)
    requires n <= 32 * |bits|
  {
    Has(s, x) || (base <= x < base + n && Marked(s, base, bits, x - base))
  }

  lemma OpenNotSkipping(s: seq<SequenceRange>, base: nat, bits: seq<bv32>, k: nat)
    requires k <= 32 * |bits|
    ensures !(ScanAt(s, base, bits, k).open && ScanAt(s, base, bits, k).skipping)
  {
  }

  /** A run never starts at number 0. */
  lemma {:induction false} OpenAboveOne(s: seq<SequenceRange>, base: nat, bits: seq<bv32>, k: nat)
    requires k <= 32 * |bits| && ScanAt(s, base, bits, k).open
    ensures 1 < base + k
  {
    if !One(base, bits, k - 1) { OpenAboveOne(s, base, bits, k - 1); }
  }

  lemma ZeroWordHasNoBits(bits: seq<bv32>, k: nat)
    requires k < 32 * |bits| && ZeroWord(bits, k)
    ensures !BitAt(bits, k)
  {
    ConstantRows();
  }

  lemma BitMeansNonZero(bits: seq<bv32>, k: nat)
    requires k < 32 * |bits| && BitAt(bits, k)
    ensures !ZeroWord(bits, k)
  {
    ConstantRows();
  }

  /** Stepping over a zero word keeps the run as it was and marks its positions iff the run is open. */
  lemma {:induction false} AcrossZeroWord(s: seq<SequenceRange>, base: nat, bits: seq<bv32>, i: nat, k: nat)
    requires i <= k <= 32 * |bits| && i % 32 == 0 && k <= i + 32 && i < 32 * |bits| && ZeroWord(bits, i)
    requires !ScanAt(s, base, bits, i).skipping
    ensures ScanAt(s, base, bits, k) == ScanAt(s, base, bits, i)
    decreases k
  {
    if i < k {
      AcrossZeroWord(s, base, bits, i, k - 1);
      assert (k - 1) / 32 == i / 32;
    }
  }

  /** Ending a run at i, when [base + i .. base + e] is in s and base + e + 1 is not, skips up to e. */
  lemma {:induction false} AcrossCoveredRange(s: seq<SequenceRange>, base: nat, bits: seq<bv32>, i: nat, e: nat, k: nat)
    requires i < k <= 32 * |bits| && k <= e + 1 && i <= e
    requires ScanAt(s, base, bits, i).open && !ZeroWord(bits, i) && !One(base, bits, i)
    requires forall x :: base + i <= x <= base + e ==> Has(s, x)
    requires !Has(s, base + e + 1)
    ensures ScanAt(s, base, bits, k) == Scan(false, k <= e)
    decreases k
  {
    OpenNotSkipping(s, base, bits, i);
    if i + 1 < k {
      AcrossCoveredRange(s, base, bits, i, e, k - 1);
    }
  }

  /** Ending a run at i when base + i is not in s. */
  lemma RunEnds(s: seq<SequenceRange>, base: nat, bits: seq<bv32>, i: nat)
    requires i < 32 * |bits|
    requires ScanAt(s, base, bits, i).open && !ZeroWord(bits, i) && !One(base, bits, i) && !Has(s, base + i)
    ensures ScanAt(s, base, bits, i + 1) == Scan(false, false)
  {
    OpenNotSkipping(s, base, bits, i);
  }

  // ---- When decoding is exact ----

  /** No all-zero word directly follows a word whose last bit is 1. */
  predicate RunsCloseBeforeZeroWords(bits: seq<bv32>, n: nat)
    requires n <= 32 * |bits|
  {
    forall w :: 1 <= w < |bits| && 32 * w < n && ZeroWord(bits, 32 * w) ==> !BitAt(bits, 32 * w - 1)
  }

  /** On such bitmaps nothing spills, whatever set they are inserted into. */
  lemma {:induction false} NothingSpills(s: seq<SequenceRange>, base: nat, bits: seq<bv32>, n: nat, k: nat)
    requires k < n <= 32 * |bits| && RunsCloseBeforeZeroWords(bits, n)
    ensures !Spilled(s, base, bits, k)
    decreases k
  {
    if ZeroWord(bits, k) && k > 0 {
      if k % 32 != 0 {
        assert (k - 1) / 32 == k / 32;
        NothingSpills(s, base, bits, n, k - 1);
      } else {
        assert 32 * (k / 32) == k;
        if ZeroWord(bits, k - 1) {
          NothingSpills(s, base, bits, n, k - 1);
        }
      }
    }
  }

  /** Above every member of s the decoder never skips, so a run ending at a zero word does spill. */
  lemma NothingSkipped(s: seq<SequenceRange>, base: nat, bits: seq<bv32>, k: nat)
    requires k <= 32 * |bits|
    requires forall x :: base <= x ==> !Has(s, x)
    ensures !ScanAt(s, base, bits, k).skipping
  {
  }

  /** Bit 0 stands for number 0 and is set: the decoder ignores it. */
  predicate LosesZero(base: nat, bits: seq<bv32>, n: nat)
    requires n <= 32 * |bits|
  {
    base == 0 && 0 < n && BitAt(bits, 0)
  }

  /** Decoding above every member of s is exact iff runs close before zero words and number 0 is not asked for. */
  lemma ExactIffRunsClose(s: seq<SequenceRange>, base: nat, bits: seq<bv32>, n: nat)
    requires n <= 32 * |bits|
    requires forall x :: base <= x ==> !Has(s, x)
    ensures RunsCloseBeforeZeroWords(bits, n) && !LosesZero(base, bits, n) <==>
            forall k :: 0 <= k < n ==> (Marked(s, base, bits, k) <==> BitAt(bits, k))
  {
    if LosesZero(base, bits, n) {
      assert !Marked(s, base, bits, 0);
    } else if RunsCloseBeforeZeroWords(bits, n) {
      forall k | 0 <= k < n ensures Marked(s, base, bits, k) <==> BitAt(bits, k) {
        NothingSpills(s, base, bits, n, k);
      }
    } else {
      var w :| 1 <= w < |bits| && 32 * w < n && ZeroWord(bits, 32 * w) && BitAt(bits, 32 * w - 1);
      SpillsInto(s, base, bits, w);
    }
  }

  /** Above every member of s, a run at the end of word w - 1 spills into the all-zero word w. */
  lemma SpillsInto(s: seq<SequenceRange>, base: nat, bits: seq<bv32>, w: nat)
    requires 1 <= w < |bits| && ZeroWord(bits, 32 * w) && BitAt(bits, 32 * w - 1)
    requires forall x :: base <= x ==> !Has(s, x)
    ensures Marked(s, base, bits, 32 * w) && !BitAt(bits, 32 * w)
  {
    hide Row;
    NothingSkipped(s, base, bits, 32 * w - 1);
    BitMeansNonZero(bits, 32 * w - 1);
    ZeroWordHasNoBits(bits, 32 * w);
  }

  /** The shortcut at work: a word whose last bit alone is set, then an all-zero word; its first 34 bits, decoded at 10
      into the empty set, also yield 42. */
  lemma ZeroWordSpill(bits: seq<bv32>)
    requires bits == [1, 0]
    ensures !RunsCloseBeforeZeroWords(bits, 34) && !BitAt(bits, 32) && Decoded([], 10, bits, 34, 42)
  {
    assert Bit(1, 31) && !Bit(0, 0);
    assert bits[31 / 32] == 1;
    assert BitAt(bits, 32 * 1 - 1) && ZeroWord(bits, 32 * 1);
    assert ScanAt([], 10, bits, 32).open by { NothingSkipped([], 10, bits, 31); }
  }
}
