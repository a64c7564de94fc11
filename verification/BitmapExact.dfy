/** When decoding a bitmap into any set is exact, told by the words and the members alone. */
module BitmapExact {
  import opened SequenceRanges
  import opened Bits
  import opened BitmapScan
  import opened BitmapDecode

  /** The last position before k that is not in an all-zero word, -1 if there is none. */
  function Source(bits: seq<bv32>, k: nat): (p: int)
    requires k <= 32 * |bits|
    ensures -1 <= p < k && (0 <= p ==> !ZeroWord(bits, p))
    ensures forall j :: p < j < k && 0 <= j ==> ZeroWord(bits, j)
  {
    if k == 0 then -1 else if !ZeroWord(bits, k - 1) then k - 1 else Source(bits, k - 1)
  }

  /** The bit before k, all-zero words not counted, is 1. */
  predicate AfterOne(base: nat, bits: seq<bv32>, k: nat)
    requires k <= 32 * |bits|
  {
    var p := Source(bits, k);
    0 <= p && One(base, bits, p)
  }

  /** A 0 after a 1, with only members in the all-zero words between them. */
  ghost predicate Ends(s: seq<SequenceRange>, base: nat, bits: seq<bv32>, c: nat)
    requires c < 32 * |bits|
  {
    && AfterOne(base, bits, c) && !ZeroWord(bits, c) && !One(base, bits, c)
    && Reaches(s, base + Source(bits, c) + 1, base + c - 1)
  }

  /** Some run ends in a stretch of members that goes on to position q. */
  ghost predicate EndsBefore(s: seq<SequenceRange>, base: nat, bits: seq<bv32>, q: nat)
    requires q < 32 * |bits|
  {
    exists c :: 0 <= c < q && Ends(s, base, bits, c) && Reaches(s, base + c, base + q)
  }

  /** Whenever a 1 is followed by all-zero words, either their numbers are members, or a run ended earlier in the
      stretch of members that the 1 belongs to. */
  ghost predicate SpillsKnown(s: seq<SequenceRange>, base: nat, bits: seq<bv32>, n: nat)
    requires n <= 32 * |bits|
  {
    forall k :: 0 <= k < n && ZeroWord(bits, k) && AfterOne(base, bits, k) ==>
                  Has(s, base + k) || EndsBefore(s, base, bits, Source(bits, k))
  }

  // ---- The decoder's state in these terms ----

  lemma {:induction false} OpenIff(s: seq<SequenceRange>, base: nat, bits: seq<bv32>, k: nat)
    requires k <= 32 * |bits|
    ensures ScanAt(s, base, bits, k).open <==>
            AfterOne(base, bits, k) && !ScanAt(s, base, bits, Source(bits, k)).skipping
  {
    hide Row, Has;
    if k > 0 && ZeroWord(bits, k - 1) {
      OpenIff(s, base, bits, k - 1);
      OpenNotSkipping(s, base, bits, k - 1);
    }
  }

  lemma {:induction false} SkippingFrom(s: seq<SequenceRange>, base: nat, bits: seq<bv32>, k: nat) returns (c: nat)
    requires k <= 32 * |bits| && ScanAt(s, base, bits, k).skipping
    ensures c < k && Closes(s, base, bits, c) && Reaches(s, base + c, base + k)
  {
    if ScanAt(s, base, bits, k - 1).skipping {
      c := SkippingFrom(s, base, bits, k - 1);
    } else {
      c := k - 1;
    }
  }

  lemma {:induction false} ClosingSkips(s: seq<SequenceRange>, base: nat, bits: seq<bv32>, c: nat, k: nat)
    requires c < k <= 32 * |bits| && Closes(s, base, bits, c) && Reaches(s, base + c, base + k)
    ensures ScanAt(s, base, bits, k).skipping
  {
    assert Has(s, base + k) && Has(s, base + (k - 1));
    if c < k - 1 { ClosingSkips(s, base, bits, c, k - 1); }
  }

  /** A run that ends before q in a stretch of members up to q makes the decoder skip q. */
  lemma EndsBeforeSkips(s: seq<SequenceRange>, base: nat, bits: seq<bv32>, q: nat)
    requires q < 32 * |bits| && EndsBefore(s, base, bits, q)
    ensures ScanAt(s, base, bits, q).skipping
  {
    hide ScanAt;
    var c :| 0 <= c < q && Ends(s, base, bits, c) && Reaches(s, base + c, base + q);
    var p := Source(bits, c);
    OpenIff(s, base, bits, c);
    if ScanAt(s, base, bits, p).skipping {
      var d := SkippingFrom(s, base, bits, p);
      ClosingSkips(s, base, bits, d, q);
    } else {
      ClosingSkips(s, base, bits, c, q);
    }
  }

  ghost predicate NoNewSpill(s: seq<SequenceRange>, base: nat, bits: seq<bv32>, n: nat)
    requires n <= 32 * |bits|
  {
    forall k :: 0 <= k < n && Spilled(s, base, bits, k) ==> Has(s, base + k)
  }

  /** If nothing new was spilled into so far, the decoder skips q only for such a run. */
  lemma SkipsOnlyFor(s: seq<SequenceRange>, base: nat, bits: seq<bv32>, q: nat)
    requires q < 32 * |bits| && ScanAt(s, base, bits, q).skipping && NoNewSpill(s, base, bits, q)
    ensures EndsBefore(s, base, bits, q)
  {
    hide ScanAt;
    var c := SkippingFrom(s, base, bits, q);
    OpenIff(s, base, bits, c);
    var p := Source(bits, c);
    forall x | base + p + 1 <= x <= base + c - 1 ensures Has(s, x) {
      var k := x - base;
      SameSource(bits, k, c);
      OpenIff(s, base, bits, k);
      assert Spilled(s, base, bits, k) && base + k == x;
    }
    assert Ends(s, base, bits, c);
  }

  lemma {:induction false} SameSource(bits: seq<bv32>, k: nat, c: nat)
    requires c <= 32 * |bits| && Source(bits, c) < k <= c
    ensures Source(bits, k) == Source(bits, c)
  {
    if k < c { SameSource(bits, k, c - 1); }
  }

  lemma NoNewSpillIff(s: seq<SequenceRange>, base: nat, bits: seq<bv32>, n: nat)
    requires n <= 32 * |bits|
    ensures NoNewSpill(s, base, bits, n) <==> SpillsKnown(s, base, bits, n)
  {
    hide ScanAt, EndsBefore, Source;
    if NoNewSpill(s, base, bits, n) {
      forall k | 0 <= k < n && ZeroWord(bits, k) && AfterOne(base, bits, k)
        ensures Has(s, base + k) || EndsBefore(s, base, bits, Source(bits, k))
      {
        OpenIff(s, base, bits, k);
        if ScanAt(s, base, bits, Source(bits, k)).skipping {
          SkipsOnlyFor(s, base, bits, Source(bits, k));
        } else {
          assert Spilled(s, base, bits, k);
        }
      }
    }
    if SpillsKnown(s, base, bits, n) {
      forall k | 0 <= k < n && Spilled(s, base, bits, k) ensures Has(s, base + k) {
        OpenIff(s, base, bits, k);
        if EndsBefore(s, base, bits, Source(bits, k)) { EndsBeforeSkips(s, base, bits, Source(bits, k)); }
      }
    }
  }

  /** The decoder inserts exactly the set bits. */
  ghost predicate Exact(s: seq<SequenceRange>, base: nat, bits: seq<bv32>, n: nat)
    requires n <= 32 * |bits|
  {
    forall x :: Decoded(s, base, bits, n, x) <==> Has(s, x) || (base <= x < base + n && BitAt(bits, x - base))
  }

  /** Decoding into any set is exact iff all spills are known and number 0, if asked for, is a member already. */
  lemma ExactIff(s: seq<SequenceRange>, base: nat, bits: seq<bv32>, n: nat)
    requires n <= 32 * |bits|
    ensures Exact(s, base, bits, n) <==>
            SpillsKnown(s, base, bits, n) && (LosesZero(base, bits, n) ==> Has(s, 0))
  {
    NoNewSpillIff(s, base, bits, n);
    hide SpillsKnown, ScanAt, Has;
    if Exact(s, base, bits, n) {
      forall k | 0 <= k < n && Spilled(s, base, bits, k) ensures Has(s, base + k) {
        ZeroWordHasNoBits(bits, k);
        assert Decoded(s, base, bits, n, base + k) by { assert base + k - base == k; }
      }
      if LosesZero(base, bits, n) {
        NothingOpen(s, base, bits);
        assert Decoded(s, base, bits, n, 0) <==> Has(s, 0);
      }
    } else {
      var x :| !(Decoded(s, base, bits, n, x) <==> Has(s, x) || (base <= x < base + n && BitAt(bits, x - base)));
      assert base <= x < base + n && !Has(s, x);
      assert base + (x - base) == x;
    }
  }

  lemma NothingOpen(s: seq<SequenceRange>, base: nat, bits: seq<bv32>)
    ensures !ScanAt(s, base, bits, 0).open
  {
  }

  // ---- The read past the bitmap ----

  /** A 0 after a 1, with only members in the all-zero words between them, is in a stretch of members that goes on past
      the last word. */
  ghost predicate EndsPast(s: seq<SequenceRange>, base: nat, bits: seq<bv32>, n: nat)
    requires n <= 32 * |bits|
  {
    exists k :: 0 <= k < n && Ends(s, base, bits, k) && Reaches(s, base + k, base + 32 * |bits|)
  }

  lemma EndsPastReads(s: seq<SequenceRange>, base: nat, bits: seq<bv32>, n: nat)
    requires n <= 32 * |bits| && EndsPast(s, base, bits, n)
    ensures ReadsPast(s, base, bits, n)
  {
    hide ScanAt, Source;
    var k :| 0 <= k < n && Ends(s, base, bits, k) && Reaches(s, base + k, base + 32 * |bits|);
    var p := Source(bits, k);
    OpenIff(s, base, bits, k);
    if ScanAt(s, base, bits, p).skipping {
      var c := SkippingFrom(s, base, bits, p);
      assert Closes(s, base, bits, c) && Reaches(s, base + c, base + 32 * |bits|);
    } else {
      assert Closes(s, base, bits, k);
    }
  }

  /** Where decoding spills into nothing new, a word past the bitmap is read iff EndsPast. */
  lemma ReadsPastIff(s: seq<SequenceRange>, base: nat, bits: seq<bv32>, n: nat)
    requires n <= 32 * |bits| && SpillsKnown(s, base, bits, n)
    ensures ReadsPast(s, base, bits, n) <==> EndsPast(s, base, bits, n)
  {
    hide ScanAt, Source, SpillsKnown;
    NoNewSpillIff(s, base, bits, n);
    if EndsPast(s, base, bits, n) { EndsPastReads(s, base, bits, n); }
    if ReadsPast(s, base, bits, n) {
      var k :| 0 <= k < n && Closes(s, base, bits, k) && Reaches(s, base + k, base + 32 * |bits|);
      ClosesEnds(s, base, bits, n, k);
    }
  }

  lemma ClosesEnds(s: seq<SequenceRange>, base: nat, bits: seq<bv32>, n: nat, c: nat)
    requires c < n <= 32 * |bits| && NoNewSpill(s, base, bits, n) && Closes(s, base, bits, c)
    ensures Ends(s, base, bits, c)
  {
    hide ScanAt;
    OpenIff(s, base, bits, c);
    forall x | base + Source(bits, c) + 1 <= x <= base + c - 1 ensures Has(s, x) {
      var k := x - base;
      SameSource(bits, k, c);
      OpenIff(s, base, bits, k);
      assert Spilled(s, base, bits, k) && base + k == x;
    }
  }

  /** Bit k - 1 is the end of a run of ones and the numbers from base + k to past the last word are all members. */
  ghost predicate RunEndsPast(s: seq<SequenceRange>, base: nat, bits: seq<bv32>, n: nat)
    requires n <= 32 * |bits|
  {
    exists k :: 1 <= k < n && One(base, bits, k - 1) && !One(base, bits, k) && Reaches(s, base + k, base + 32 * |bits|)
  }

  /** The same without all-zero words in the way. */
  lemma ReadsPastIffRunEndsPast(s: seq<SequenceRange>, base: nat, bits: seq<bv32>, n: nat)
    requires n <= 32 * |bits| && RunsCloseBeforeZeroWords(bits, n)
    ensures ReadsPast(s, base, bits, n) <==> RunEndsPast(s, base, bits, n)
  {
    hide ScanAt, SpillsKnown, NoNewSpill;
    assert NoNewSpill(s, base, bits, n) by {
      forall k | 0 <= k < n ensures !Spilled(s, base, bits, k) { NothingSpills(s, base, bits, n, k); }
      NoSpillNoNew(s, base, bits, n);
    }
    NoNewSpillIff(s, base, bits, n);
    ReadsPastIff(s, base, bits, n);
    if EndsPast(s, base, bits, n) {
      var k :| 0 <= k < n && Ends(s, base, bits, k) && Reaches(s, base + k, base + 32 * |bits|);
      SourceAdjacent(base, bits, n, k);
    }
    if RunEndsPast(s, base, bits, n) {
      var k :| 1 <= k < n && One(base, bits, k - 1) && !One(base, bits, k) && Reaches(s, base + k, base + 32 * |bits|);
      AdjacentEnds(s, base, bits, n, k);
    }
  }

  lemma NoSpillNoNew(s: seq<SequenceRange>, base: nat, bits: seq<bv32>, n: nat)
    requires n <= 32 * |bits| && forall k :: 0 <= k < n ==> !Spilled(s, base, bits, k)
    ensures NoNewSpill(s, base, bits, n)
  {
  }

  /** Where runs close before all-zero words, no all-zero word starts right after a 1. */
  lemma NonZeroAfterOne(bits: seq<bv32>, n: nat, k: nat)
    requires 1 <= k < n <= 32 * |bits| && RunsCloseBeforeZeroWords(bits, n) && BitAt(bits, k - 1)
    ensures !ZeroWord(bits, k)
  {
    BitMeansNonZero(bits, k - 1);
    var w := k / 32;
    if k % 32 == 0 {
      assert k == 32 * w;
      assert !ZeroWord(bits, 32 * w);
    } else {
      assert k / 32 == (k - 1) / 32;
    }
  }

  /** So the 1 before a 0 is right before it. */
  lemma SourceAdjacent(base: nat, bits: seq<bv32>, n: nat, k: nat)
    requires k < n <= 32 * |bits| && RunsCloseBeforeZeroWords(bits, n) && AfterOne(base, bits, k)
    ensures Source(bits, k) == k - 1
  {
    if Source(bits, k) < k - 1 { NonZeroAfterOne(bits, n, Source(bits, k) + 1); }
  }

  lemma AdjacentEnds(s: seq<SequenceRange>, base: nat, bits: seq<bv32>, n: nat, k: nat)
    requires 1 <= k < n <= 32 * |bits| && RunsCloseBeforeZeroWords(bits, n)
    requires One(base, bits, k - 1) && !One(base, bits, k)
    ensures Ends(s, base, bits, k)
  {
    hide Row;
    BitMeansNonZero(bits, k - 1);
    NonZeroAfterOne(bits, n, k);
  }
}
