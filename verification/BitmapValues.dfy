/** What decoding a bitmap adds, in binary digits of the words. */
module BitmapValues {
  import opened Basics
  import opened SequenceRanges
  import opened Bits
  import opened BitmapScan

  /** From s to t, exactly the numbers were added whose binary digit in the bitmap is 1. */
  ghost predicate AddsDigits(s: seq<SequenceRange>, t: seq<SequenceRange>, base: nat, bits: seq<bv32>, n: nat)
    requires n <= 32 * |bits|
  {
    forall x :: Has(t, x) <==>
                || Has(s, x)
                || (base <= x < base + n && Number(bits[(x - base) / 32]) / Power2(31 - (x - base) % 32) % 2 == 1)
  }

  /** No word 0 follows an odd word. */
  predicate EvenBeforeZero(bits: seq<bv32>) {
    forall w :: 1 <= w < |bits| && bits[w] == 0 ==> Number(bits[w - 1]) % 2 == 0
  }

  lemma DecodedDigits(s: seq<SequenceRange>, t: seq<SequenceRange>, base: nat, bits: seq<bv32>, n: nat)
    requires 0 < base && n <= 32 * |bits| && EvenBeforeZero(bits)
    requires forall x :: Has(t, x) <==> Decoded(s, base, bits, n, x)
    ensures AddsDigits(s, t, base, bits, n)
  {
    hide Decoded, Has, Number, Power2;
    forall x { DecodedByValue(s, base, bits, n, x); }
  }

  /** Where no word 0 follows an odd word, decoding adds to any set exactly the numbers whose binary digit is 1. */
  lemma DecodedByValue(s: seq<SequenceRange>, base: nat, bits: seq<bv32>, n: nat, x: int)
    requires 0 < base && n <= 32 * |bits|
    requires forall w :: 1 <= w < |bits| && bits[w] == 0 ==> Number(bits[w - 1]) % 2 == 0
    ensures Decoded(s, base, bits, n, x) <==>
            || Has(s, x)
            || (base <= x < base + n && Number(bits[(x - base) / 32]) / Power2(31 - (x - base) % 32) % 2 == 1)
  {
    hide Row, ScanAt, Number, Has;
    forall w | 1 <= w < |bits| && 32 * w < n && ZeroWord(bits, 32 * w) ensures !BitAt(bits, 32 * w - 1) {
      EvenWord(bits, w);
    }
    if base <= x < base + n {
      NothingSpills(s, base, bits, n, x - base);
      BitAtByValue(bits, x - base);
    }
  }

  lemma EvenWord(bits: seq<bv32>, w: nat)
    requires 1 <= w < |bits| && Number(bits[w - 1]) % 2 == 0
    ensures !BitAt(bits, 32 * w - 1)
  {
    hide Row, Number;
    assert (32 * w - 1) / 32 == w - 1 && (32 * w - 1) % 32 == 31 && Power2(0) == 1;
    BitAtByValue(bits, 32 * w - 1);
  }
}
