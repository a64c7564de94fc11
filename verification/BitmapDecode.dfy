/** The loop invariant of the bitmap decoder and the lemmas that carry it across each kind of step. */
module BitmapDecode {
  import opened SequenceRanges
  import opened RangeInsertion
  import opened Bits
  import opened BitmapScan

  /** A run starts at number 1 next to a lowest range [0..0]. */
  ghost predicate HiddenZero(was: seq<SequenceRange>, base: nat, bits: seq<bv32>) {
    base <= 1 && 1 - base < 32 * |bits| && BitAt(bits, 1 - base) && ClampMiss(was, 1)
  }

  /** Number of leading positions already reflected in the set: an open run is not inserted yet. */
  function Settled(base: nat, m: nat, rangeStart: nat): int {
    if rangeStart != 0 then rangeStart - base else m
  }

  /** The decoder has dealt with positions below m of the bitmap being inserted at base into `was`. */
  ghost predicate Decoding(was: seq<SequenceRange>, base: nat, bits: seq<bv32>, m: nat, rangeStart: nat,
                           cur: seq<SequenceRange>, iter: nat, inserted: bool)
    requires m <= 32 * |bits|
  {
    var st := Settled(base, m, rangeStart);
    && (rangeStart != 0 ==> base <= rangeStart < base + m)
    && (rangeStart != 0 <==> ScanAt(was, base, bits, m).open)
    && (forall k :: st <= k < m ==> Marked(was, base, bits, k))
    && Holds(was, base, bits, st, cur, inserted)
    && iter <= |cur| && (iter < |cur| ==> cur[iter].first <= base + st)
  }

  /** The set after the first st positions have been inserted. */
  ghost predicate Holds(was: seq<SequenceRange>, base: nat, bits: seq<bv32>, st: nat,
                        cur: seq<SequenceRange>, inserted: bool)
    requires st <= 32 * |bits|
  {
    && Separated(cur)
    && (forall x :: Has(cur, x) <==> Decoded(was, base, bits, st, x))
    && (inserted <==> exists x :: Has(cur, x) && !Has(was, x))
    && (base + st <= 1 ==> cur == was)
    && (Normal(cur) <==> Normal(was) && !(1 < base + st && HiddenZero(was, base, bits)))
  }

  function Until(i: nat, n: nat): nat { if i < n then i else n }

  /** The loop's bit counter and current word agree with its position. */
  ghost predicate InStep(bits: seq<bv32>, i: nat, bit: nat, x: bv32, open: bool)
    requires i < 32 * |bits|
  {
    && (bit == i % 32 || (bit == 32 && i % 32 == 0))
    && (0 < bit < 32 ==> x == bits[i / 32] && (open ==> x != 0))
  }

  lemma StartInStep(bits: seq<bv32>)
    requires bits != []
    ensures InStep(bits, 0, 0, 0, false)
  {
  }

  lemma EnterInStep(bits: seq<bv32>, i: nat, bit: nat, x: bv32, open: bool)
    requires i < 32 * |bits| && InStep(bits, i, bit, x, open)
    ensures (if bit == 32 then 0 else bit) == i % 32
    ensures i % 32 != 0 ==> x == bits[i / 32] && (open ==> x != 0)
  {
  }

  lemma NextInStep(bits: seq<bv32>, n: nat, i: nat, bit: nat, x: bv32, open: bool)
    requires n <= 32 * |bits| && bit == i % 32
    requires bit < 31 && i < n ==> x == bits[i / 32] && (open ==> x != 0)
    ensures i + 1 < n ==> InStep(bits, i + 1, bit + 1, x, open)
  {
    if bit < 31 {
      assert (i + 1) / 32 == i / 32;
    }
  }

  lemma StartDecoding(was: seq<SequenceRange>, base: nat, bits: seq<bv32>)
    requires Separated(was)
    ensures Decoding(was, base, bits, 0, 0, was, |was|, false) && !ScanAt(was, base, bits, 0).skipping
  {
  }

  lemma DecodeOneBit(was: seq<SequenceRange>, base: nat, bits: seq<bv32>, i: nat, rangeStart: nat,
                     cur: seq<SequenceRange>, iter: nat, inserted: bool)
    requires i < 32 * |bits| && One(base, bits, i)
    requires Decoding(was, base, bits, i, rangeStart, cur, iter, inserted) && !ScanAt(was, base, bits, i).skipping
    ensures Decoding(was, base, bits, i + 1, if rangeStart == 0 then base + i else rangeStart, cur, iter, inserted)
    ensures !ScanAt(was, base, bits, i + 1).skipping
  {
    hide Holds;
    if ZeroWord(bits, i) { ZeroWordHasNoBits(bits, i); }
  }

  /** Positions that add nothing new can be settled for free. */
  lemma SettleFree(was: seq<SequenceRange>, base: nat, bits: seq<bv32>, a: nat, b: nat,
                   cur: seq<SequenceRange>, inserted: bool)
    requires a <= b <= 32 * |bits| && Holds(was, base, bits, a, cur, inserted)
    requires forall k :: a <= k < b ==> !Marked(was, base, bits, k) || Has(was, base + k)
    requires base + a <= 1 < base + b ==> !HiddenZero(was, base, bits)
    ensures Holds(was, base, bits, b, cur, inserted)
  {
    forall x ensures Has(cur, x) <==> Decoded(was, base, bits, b, x) {
      assert Has(cur, x) <==> Decoded(was, base, bits, a, x);
      if base + a <= x < base + b { assert !Marked(was, base, bits, x - base) || Has(was, base + (x - base)); }
    }
  }

  /** A position of a zero word is marked iff a run is open. */
  lemma MarkedInZeroWord(was: seq<SequenceRange>, base: nat, bits: seq<bv32>, i: nat, k: nat)
    requires i <= k < 32 * |bits| && k < i + 32 && i % 32 == 0 && ZeroWord(bits, i)
    requires !ScanAt(was, base, bits, i).skipping
    ensures !BitAt(bits, k) && (Marked(was, base, bits, k) <==> ScanAt(was, base, bits, i).open)
  {
    AcrossZeroWord(was, base, bits, i, k);
    assert k / 32 == i / 32;
    ZeroWordHasNoBits(bits, k);
  }

  lemma DecodeZeroWord(was: seq<SequenceRange>, base: nat, bits: seq<bv32>, i: nat, m: nat, rangeStart: nat,
                       cur: seq<SequenceRange>, iter: nat, inserted: bool)
    requires i < m <= 32 * |bits| && m <= i + 32 && i % 32 == 0 && ZeroWord(bits, i)
    requires Decoding(was, base, bits, i, rangeStart, cur, iter, inserted) && !ScanAt(was, base, bits, i).skipping
    ensures Decoding(was, base, bits, m, rangeStart, cur, iter, inserted) && !ScanAt(was, base, bits, m).skipping
  {
    hide Holds, ScanAt, Marked, ZeroWord, Row;
    forall k | i <= k < m ensures !BitAt(bits, k) && (Marked(was, base, bits, k) <==> rangeStart != 0) {
      MarkedInZeroWord(was, base, bits, i, k);
    }
    AcrossZeroWord(was, base, bits, i, m);
    if rangeStart == 0 { SettleFree(was, base, bits, i, m, cur, inserted); }
  }

  lemma DecodeIdleBit(was: seq<SequenceRange>, base: nat, bits: seq<bv32>, i: nat,
                      cur: seq<SequenceRange>, iter: nat, inserted: bool)
    requires i < 32 * |bits| && !One(base, bits, i)
    requires Decoding(was, base, bits, i, 0, cur, iter, inserted) && !ScanAt(was, base, bits, i).skipping
    ensures Decoding(was, base, bits, i + 1, 0, cur, iter, inserted)
    ensures !ScanAt(was, base, bits, i + 1).skipping
  {
    hide Holds;
    SettleFree(was, base, bits, i, i + 1, cur, inserted);
  }

  /** A set bit opens or continues a run, unless it stands for number 0. */
  lemma DecodeSetBit(was: seq<SequenceRange>, base: nat, bits: seq<bv32>, i: nat, rangeStart: nat,
                     cur: seq<SequenceRange>, iter: nat, inserted: bool)
    requires i < 32 * |bits| && BitAt(bits, i)
    requires Decoding(was, base, bits, i, rangeStart, cur, iter, inserted) && !ScanAt(was, base, bits, i).skipping
    ensures Decoding(was, base, bits, i + 1, if rangeStart == 0 then base + i else rangeStart, cur, iter, inserted)
    ensures !ScanAt(was, base, bits, i + 1).skipping
  {
    hide Holds, Marked, ScanAt;
    if base + i == 0 {
      DecodeIdleBit(was, base, bits, i, cur, iter, inserted);
    } else {
      DecodeOneBit(was, base, bits, i, rangeStart, cur, iter, inserted);
    }
  }

  /** At number 1 only a set bit marks. */
  lemma FirstRunIsBit(was: seq<SequenceRange>, base: nat, bits: seq<bv32>)
    requires base <= 1 && 1 - base < 32 * |bits| && Marked(was, base, bits, 1 - base)
    ensures BitAt(bits, 1 - base)
  {
    if ScanAt(was, base, bits, 1 - base).open { OpenAboveOne(was, base, bits, 1 - base); }
  }

  /** Inserting an open run settles every position below m. */
  lemma SettleRun(was: seq<SequenceRange>, base: nat, bits: seq<bv32>, m: nat, rangeStart: nat,
                  cur: seq<SequenceRange>, iter: nat, inserted: bool, next: seq<SequenceRange>, grew: bool)
    requires m <= 32 * |bits| && rangeStart != 0
    requires Decoding(was, base, bits, m, rangeStart, cur, iter, inserted)
    requires var r := SequenceRange(rangeStart, base + m - 1);
             && Separated(next) && Adds(cur, r, next)
             && (grew <==> exists x :: r.first <= x <= r.second && !Has(cur, x))
             && (Normal(next) <==> Normal(cur) && !ClampMiss(cur, r.first))
    ensures Holds(was, base, bits, m, next, inserted || grew)
  {
    assert forall x :: Has(next, x) <==> Decoded(was, base, bits, m, x);
    if rangeStart == 1 {
      assert Marked(was, base, bits, 1 - base);
      FirstRunIsBit(was, base, bits);
    }
  }

  lemma DecodingDone(was: seq<SequenceRange>, base: nat, bits: seq<bv32>, n: nat,
                     cur: seq<SequenceRange>, iter: nat, inserted: bool)
    requires n <= 32 * |bits|
    requires Decoding(was, base, bits, n, 0, cur, iter, inserted) || Holds(was, base, bits, n, cur, inserted)
    ensures Separated(cur)
    ensures forall x :: Has(cur, x) <==> Decoded(was, base, bits, n, x)
    ensures inserted <==> exists x :: Has(cur, x) && !Has(was, x)
    ensures Normal(cur) <==> Normal(was) && !(1 < base + n && HiddenZero(was, base, bits))
  {
  }

  /** No range that the first n bits can touch reaches 2^32 - 1 numbers past base, so bit indices do not wrap. */
  ghost predicate IndexFits32(s: seq<SequenceRange>, base: nat, n: nat) {
    forall j :: 0 <= j < |s| && s[j].first < base + n ==> s[j].second < base + 0xFFFF_FFFF
  }

  /** Where decoding continues after the run that ended at i has been inserted as range at. */
  function Resume(base: nat, i: nat, at: SequenceRange): int {
    if at.second == base + i - 1 then i + 1 else at.second - base + 1
  }

  /** Past the run just inserted, the range at the iterator was there before, and it ends where it ended before. */
  lemma RestWasThere(was: seq<SequenceRange>, base: nat, bits: seq<bv32>, i: nat, n: nat,
                     next: seq<SequenceRange>, iter: nat, inserted: bool)
    requires 1 < base + i && i < n <= 32 * |bits| && iter < |next|
    requires Separated(was) && IndexFits32(was, base, n)
    requires Holds(was, base, bits, i, next, inserted)
    requires next[iter].first < base + i <= next[iter].second + 1
    ensures !Has(was, next[iter].second + 1)
    ensures forall x :: base + i <= x <= next[iter].second ==> Has(was, x)
    ensures base + i <= next[iter].second ==> next[iter].second < base + 0xFFFF_FFFF
  {
    var second := next[iter].second;
    HoleAfter(next, iter);
    assert !Has(was, second + 1) by { assert Decoded(was, base, bits, i, second + 1) <==> Has(next, second + 1); }
    forall x | base + i <= x <= second ensures Has(was, x) {
      assert next[iter].first <= x <= next[iter].second;
      assert Has(next, x) <==> Decoded(was, base, bits, i, x);
    }
    if base + i <= second {
      var j := SameRange(was, base + i, second);
    }
  }

  /** The decoder's state where it resumes. */
  lemma ScanResumes(was: seq<SequenceRange>, base: nat, bits: seq<bv32>, i: nat, second: nat, k: nat)
    requires i < k <= 32 * |bits| && base + i <= second + 1
    requires k <= (if second == base + i - 1 then i + 1 else second - base + 1)
    requires ScanAt(was, base, bits, i).open && !ZeroWord(bits, i) && !One(base, bits, i)
    requires !Has(was, second + 1) && forall x :: base + i <= x <= second ==> Has(was, x)
    ensures !ScanAt(was, base, bits, k).open
    ensures k == (if second == base + i - 1 then i + 1 else second - base + 1) ==> !ScanAt(was, base, bits, k).skipping
  {
    if second == base + i - 1 {
      RunEnds(was, base, bits, i);
    } else {
      AcrossCoveredRange(was, base, bits, i, second - base, k);
    }
  }

  /** Skipping to the end of the range at the iterator loses nothing. */
  lemma DecodeSkipAhead(was: seq<SequenceRange>, base: nat, bits: seq<bv32>, i: nat, n: nat,
                        next: seq<SequenceRange>, iter: nat, inserted: bool)
    requires 1 < base + i && i < n <= 32 * |bits| && iter < |next|
    requires Separated(was) && IndexFits32(was, base, n)
    requires ScanAt(was, base, bits, i).open && !ZeroWord(bits, i) && !One(base, bits, i)
    requires Holds(was, base, bits, i, next, inserted)
    requires next[iter].first < base + i <= next[iter].second + 1
    ensures base + i <= next[iter].second ==> next[iter].second < base + 0xFFFF_FFFF
    ensures var m := Resume(base, i, next[iter]);
            && i < m
            && (m <= n ==>
                  Decoding(was, base, bits, m, 0, next, iter, inserted) && !ScanAt(was, base, bits, m).skipping)
            && (n < m ==> Decoding(was, base, bits, n, 0, next, iter, inserted))
  {
    hide Holds, Decoded, ScanAt, Separated, Normal, Has;
    var m := Resume(base, i, next[iter]);
    var stop := if m <= n then m else n;
    RestWasThere(was, base, bits, i, n, next, iter, inserted);
    ScanResumes(was, base, bits, i, next[iter].second, stop);
    SettleFree(was, base, bits, i, stop, next, inserted);
  }

  // ---- The word read by the skip-ahead ----

  /** Some run among the first n bits ends in a range of the set that reaches past the last word of the bitmap. */
  ghost predicate ReadsPast(was: seq<SequenceRange>, base: nat, bits: seq<bv32>, n: nat)
    requires n <= 32 * |bits|
  {
    exists k :: 0 <= k < n && Closes(was, base, bits, k) && Reaches(was, base + k, base + 32 * |bits|)
  }

  lemma NothingCloses(was: seq<SequenceRange>, base: nat, bits: seq<bv32>, a: nat, b: nat)
    requires a <= b <= 32 * |bits| && forall k :: a <= k < b ==> !Closes(was, base, bits, k)
    ensures ReadsPast(was, base, bits, b) <==> ReadsPast(was, base, bits, a)
  {
    hide Closes, Reaches;
  }

  lemma ZeroWordClosesNothing(was: seq<SequenceRange>, base: nat, bits: seq<bv32>, i: nat, m: nat)
    requires i < m <= 32 * |bits| && m <= i + 32 && i % 32 == 0 && ZeroWord(bits, i)
    ensures ReadsPast(was, base, bits, m) <==> ReadsPast(was, base, bits, i)
  {
    forall k | i <= k < m ensures !Closes(was, base, bits, k) { assert k / 32 == i / 32; }
    NothingCloses(was, base, bits, i, m);
  }

  /** Ending a run at i in a range that ends at `second`: the next word read lies past the bitmap iff the range reaches
      past it. */
  lemma RunClosesOnce(was: seq<SequenceRange>, base: nat, bits: seq<bv32>, i: nat, second: nat, stop: nat)
    requires i < stop <= 32 * |bits| && base + i <= second + 1
    requires stop <= (if second == base + i - 1 then i + 1 else second - base + 1)
    requires Closes(was, base, bits, i) && !ReadsPast(was, base, bits, i)
    requires !Has(was, second + 1) && forall x :: base + i <= x <= second ==> Has(was, x)
    ensures ReadsPast(was, base, bits, stop) <==> base + 32 * |bits| <= second
  {
    forall k | i + 1 <= k < stop ensures !Closes(was, base, bits, k) {
      ScanResumes(was, base, bits, i, second, k);
    }
    NothingCloses(was, base, bits, i + 1, stop);
    assert Reaches(was, base + i, base + 32 * |bits|) <==> base + 32 * |bits| <= second;
    hide Closes, Reaches;
    assert ReadsPast(was, base, bits, i + 1) <==> Reaches(was, base + i, base + 32 * |bits|);
  }

  lemma NothingRead(was: seq<SequenceRange>, base: nat, bits: seq<bv32>)
    ensures !ReadsPast(was, base, bits, 0)
  {
  }

  /** A step that ends no run reads nothing past the bitmap. */
  lemma StillOpen(was: seq<SequenceRange>, base: nat, bits: seq<bv32>, i: nat, rangeStart: nat,
                  cur: seq<SequenceRange>, iter: nat, inserted: bool)
    requires i < 32 * |bits| && Decoding(was, base, bits, i, rangeStart, cur, iter, inserted)
    requires rangeStart == 0 || BitAt(bits, i)
    ensures ReadsPast(was, base, bits, i + 1) <==> ReadsPast(was, base, bits, i)
  {
    assert !Closes(was, base, bits, i) by {
      if ScanAt(was, base, bits, i).open { OpenAboveOne(was, base, bits, i); }
    }
    NothingCloses(was, base, bits, i, i + 1);
  }

  /** Where the skip after a run that ended at i reads. */
  lemma SkipReads(was: seq<SequenceRange>, base: nat, bits: seq<bv32>, i: nat, n: nat,
                  next: seq<SequenceRange>, iter: nat, inserted: bool)
    requires 1 < base + i && i < n <= 32 * |bits| && iter < |next|
    requires Separated(was) && IndexFits32(was, base, n)
    requires Closes(was, base, bits, i) && !ReadsPast(was, base, bits, i)
    requires Holds(was, base, bits, i, next, inserted)
    requires next[iter].first < base + i <= next[iter].second + 1
    ensures ReadsPast(was, base, bits, Until(Resume(base, i, next[iter]), n))
            <==> base + 32 * |bits| <= next[iter].second
  {
    hide Holds, Decoded, ScanAt, Separated, Normal, Has, ReadsPast, Closes;
    RestWasThere(was, base, bits, i, n, next, iter, inserted);
    RunClosesOnce(was, base, bits, i, next[iter].second, Until(Resume(base, i, next[iter]), n));
  }
}
