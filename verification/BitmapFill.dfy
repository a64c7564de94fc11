/** DisjointSequence::fill_bitmap_range: marking one range of positions in a bitmap that is written left to right. */
module BitmapFill {
  import opened Bits

  /** Longest bitmap, in words, for which no 32-bit bit index overflows. */
  const MAX_WORDS: nat := 0x07FF_FFFE

  /** Position k of the low word, below the range, is cleared: it comes after the last bit written, or that bit is in
      another word, even a later one. */
  predicate ClearedBelow(k: nat, numBits: nat) {
    numBits == 0 || (numBits - 1) / 32 != k / 32 || numBits <= k
  }

  /** Bit b of word w after marking low..top, when numBits bits had been written before and the bit was `was`. */
  function MarkedBit(was: bool, w: nat, b: nat, low: nat, top: nat, numBits: nat): bool {
    var k := 32 * w + b;
    if low <= k <= top then true
    else if k < low && (if w == low / 32 then ClearedBelow(k, numBits) else w >= (numBits + 31) / 32) then false
    else if top < k && w == top / 32 && (numBits == 0 || low / 32 < w) then false
    else was
  }

  ghost function AfterFill(words: seq<bv32>, w: nat, b: nat, low: nat, top: nat, numBits: nat): bool
    requires w < |words| && b < 32
  {
    MarkedBit(Row(words[w])[b], w, b, low, top, numBits)
  }

  ghost predicate FilledWord(words: seq<bv32>, x: bv32, w: nat, low: nat, top: nat, numBits: nat)
    requires w < |words|
  {
    forall b :: 0 <= b < 32 ==> Row(x)[b] == AfterFill(words, w, b, low, top, numBits)
  }

  ghost predicate Filled(before: seq<bv32>, after: seq<bv32>, low: nat, top: nat, numBits: nat) {
    |after| == |before| && forall w :: 0 <= w < |after| ==> FilledWord(before, after[w], w, low, top, numBits)
  }

  /** Words from `from` to idxLow cleared, word idxLow set to x, words up to `to` set to all ones. */
  ghost predicate Written(was: seq<bv32>, now: seq<bv32>, from: nat, idxLow: nat, to: nat, x: bv32) {
    |now| == |was| && forall w :: 0 <= w < |now| ==>
      now[w] == (if w == idxLow then x else if idxLow < w < to then 0xFFFF_FFFF
                 else if from <= w < idxLow then 0 else was[w])
  }

  /** What the low word becomes. */
  ghost predicate IsLowWord(word: bv32, x: bv32, numBits: nat, idxLow: nat, bitLow: nat, limit: nat) {
    forall b :: 0 <= b < 32 ==>
      Row(x)[b] == (bitLow <= b <= limit
                    || (Row(word)[b] && numBits > 0 && !(b < bitLow && ClearedBelow(32 * idxLow + b, numBits))))
  }

  /** Word by word, what has been written is the specified fill. */
  lemma WordFilled(was: seq<bv32>, now: seq<bv32>, low: nat, top: nat, numBits: nat, x: bv32, w: nat)
    requires low <= top < 32 * |was| && w < |was|
    requires IsLowWord(was[low / 32], x, numBits, low / 32, low % 32, if top / 32 == low / 32 then top % 32 else 31)
    requires if top / 32 == low / 32 then Written(was, now, (numBits + 31) / 32, low / 32, top / 32, x)
             else && |now| == |was|
                  && (forall b :: 0 <= b < 32 ==> Row(now[top / 32])[b] == (b <= top % 32))
                  && Written(was, now[top / 32 := was[top / 32]], (numBits + 31) / 32, low / 32, top / 32, x)
    ensures FilledWord(was, now[w], w, low, top, numBits)
  {
    hide Row;
    ConstantRows();
    assert w != top / 32 ==> now[top / 32 := was[top / 32]][w] == now[w];
    if w == low / 32 {
      forall b | 0 <= b < 32 ensures Row(now[w])[b] == AfterFill(was, w, b, low, top, numBits) {
        assert (32 * w + b) / 32 == w;
      }
    } else if w == top / 32 {
      assert FilledWord(was, now[w], w, low, top, numBits);
    } else {
      assert FilledWord(was, now[w], w, low, top, numBits);
    }
  }

  /** Writes the word x at indices from..to-1. */
  method SetWords(bitmap: array<bv32>, from: nat, to: nat, x: bv32)
    requires to <= bitmap.Length
    modifies bitmap
    ensures forall w :: 0 <= w < bitmap.Length ==> bitmap[w] == if from <= w < to then x else old(bitmap[w])
  {
    var i := from;
    while i < to
      invariant from <= i && (i == from || i <= to)
      invariant forall w :: 0 <= w < bitmap.Length ==> bitmap[w] == if from <= w < i then x else old(bitmap[w])
    {
      bitmap[i] := x;
      i := i + 1;
    }
  }

  /** Marks positions low..high, clamped to the bitmap; false means that not everything fitted. */
  method FillBitmapRange(low: nat, high: nat, bitmap: array<bv32>, numBits: nat) returns (fit: bool, numBits': nat)
    requires low <= high && bitmap.Length <= MAX_WORDS
    modifies bitmap
    ensures fit <==> high < 32 * bitmap.Length
    ensures 32 * bitmap.Length <= low ==> numBits' == numBits && bitmap[..] == old(bitmap[..])
    ensures low < 32 * bitmap.Length ==>
              var top := if fit then high else 32 * bitmap.Length - 1;
              numBits' == top + 1 && Filled(old(bitmap[..]), bitmap[..], low, top, numBits)
  {
    if low / 32 >= bitmap.Length {
      return false, numBits;
    }
    var clamped, top := false, high;
    if high / 32 >= bitmap.Length {
      // clamp to the largest position we can represent
      clamped, top := true, bitmap.Length * 32 - 1;
    }
    MarkRange(low, top, bitmap, numBits);
    return !clamped, top + 1;
  }

  /** Marks positions low..high, both inside the bitmap. */
  method MarkRange(low: nat, high: nat, bitmap: array<bv32>, numBits: nat)
    requires low <= high < 32 * bitmap.Length
    modifies bitmap
    ensures Filled(old(bitmap[..]), bitmap[..], low, high, numBits)
  {
    hide Row, FilledWord, AfterFill, IsLowWord;
    ghost var was := bitmap[..];
    var idxLow, bitLow, idxHigh, bitHigh := low / 32, low % 32, high / 32, high % 32;
    // clear any full words between the last bit written and idxLow
    SetWords(bitmap, (numBits + 31) / 32, idxLow, 0);
    var x := LowWord(bitmap[idxLow], numBits, idxLow, bitLow, if idxHigh == idxLow then bitHigh else 31);
    bitmap[idxLow] := x;
    // any full words inside the range are set to all ones
    SetWords(bitmap, idxLow + 1, idxHigh, 0xFFFF_FFFF);
    ghost var inner := bitmap[..];
    assert Written(was, inner, (numBits + 31) / 32, idxLow, idxHigh, x);
    if idxHigh > idxLow {
      // the first write of this word, nothing to preserve
      var y := SetBits(0, 0, bitHigh);
      ConstantRows();
      bitmap[idxHigh] := y;
      assert bitmap[..][idxHigh := was[idxHigh]] == inner;
    }
    forall w | 0 <= w < |was| ensures FilledWord(was, bitmap[..][w], w, low, high, numBits) {
      WordFilled(was, bitmap[..], low, high, numBits, x, w);
    }
  }

  /** The word at idxLow, preserving bits that may already be there. */
  method LowWord(word: bv32, numBits: nat, idxLow: nat, bitLow: nat, limit: nat) returns (x: bv32)
    requires bitLow <= limit < 32
    ensures IsLowWord(word, x, numBits, idxLow, bitLow, limit)
  {
    x := word;
    if numBits > 0 {
      var bitLast := if (numBits - 1) / 32 == idxLow then (numBits - 1) % 32 + 1 else 0;
      x := ClearBits(x, bitLast, bitLow);
    } else {
      x := 0;
      ConstantRows();
    }
    x := SetBits(x, bitLow, limit);
  }

  /** Filling the whole bitmap sets every bit. */
  lemma AllFilled(before: seq<bv32>, after: seq<bv32>)
    requires after != [] && Filled(before, after, 0, 32 * |after| - 1, 0)
    ensures forall k :: 0 <= k < 32 * |after| ==> BitAt(after, k)
  {
    forall k | 0 <= k < 32 * |after| ensures BitAt(after, k) {
      assert FilledWord(before, after[k / 32], k / 32, 0, 32 * |after| - 1, 0);
    }
  }
}
