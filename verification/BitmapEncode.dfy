/** What a bitmap looks like after ranges of positions have been marked in ascending order, whatever it held before. */
module BitmapEncode {
  import opened Bits
  import opened BitmapFill

  datatype Fill = Fill(low: nat, high: nat)

  ghost predicate Increasing(fills: seq<Fill>) {
    && (forall i :: 0 <= i < |fills| ==> fills[i].low <= fills[i].high)
    && (forall i, j :: 0 <= i < j < |fills| ==> fills[i].high < fills[j].low)
  }

  ghost predicate Covered(fills: seq<Fill>, k: nat) {
    exists j :: 0 <= j < |fills| && fills[j].low <= k <= fills[j].high
  }

  /** Word w is first written by a fill that lies inside it and is not the very first fill.
      Only the bits before that fill are cleared then. */
  ghost predicate Dirty(fills: seq<Fill>, w: nat) {
    exists j :: 1 <= j < |fills| && fills[j - 1].high / 32 < w && fills[j].low / 32 == w && fills[j].high / 32 == w
  }

  /** Every fill that starts in or before the word of k ends before k. */
  ghost predicate PastFills(fills: seq<Fill>, k: nat) {
    forall j :: 0 <= j < |fills| && fills[j].low / 32 <= k / 32 ==> fills[j].high < k
  }

  /** Position k keeps whatever the buffer held before: it lies in a dirty word, after the last fill of that word. */
  ghost predicate Stale(fills: seq<Fill>, k: nat) {
    Dirty(fills, k / 32) && PastFills(fills, k)
  }

  /** Number of bits written so far. */
  function End(fills: seq<Fill>): nat { if fills == [] then 0 else fills[|fills| - 1].high + 1 }

  /** Bit b of word w after the fills. */
  ghost predicate EncodedBit(fills: seq<Fill>, orig: seq<bv32>, w: nat, b: nat)
    requires w < |orig| && b < 32
  {
    if 32 * w < End(fills) then Covered(fills, 32 * w + b) || (Stale(fills, 32 * w + b) && Row(orig[w])[b])
    else Row(orig[w])[b]
  }

  ghost predicate Encoded(fills: seq<Fill>, orig: seq<bv32>, cur: seq<bv32>) {
    |cur| == |orig| && forall w, b :: 0 <= w < |cur| && 0 <= b < 32 ==> Row(cur[w])[b] == EncodedBit(fills, orig, w, b)
  }

  lemma AppendCovered(fills: seq<Fill>, f: Fill, k: nat)
    ensures Covered(fills + [f], k) <==> Covered(fills, k) || f.low <= k <= f.high
  {
    var g := fills + [f];
    assert g[|fills|] == f;
    if Covered(fills, k) {
      var j :| 0 <= j < |fills| && fills[j].low <= k <= fills[j].high;
      assert g[j] == fills[j];
    }
  }

  lemma AppendDirty(fills: seq<Fill>, f: Fill, w: nat)
    ensures Dirty(fills + [f], w) <==>
            (Dirty(fills, w) || (0 < End(fills) && (End(fills) - 1) / 32 < w && f.low / 32 == w && f.high / 32 == w))
  {
    var g := fills + [f];
    assert g[|fills|] == f;
    assert forall j :: 0 <= j < |fills| ==> g[j] == fills[j];
  }

  lemma AppendPastFills(fills: seq<Fill>, f: Fill, k: nat)
    ensures PastFills(fills + [f], k) <==> PastFills(fills, k) && (f.low / 32 <= k / 32 ==> f.high < k)
  {
    var g := fills + [f];
    assert g[|fills|] == f;
    assert forall j :: 0 <= j < |fills| ==> g[j] == fills[j];
  }

  /** The end of the last fill bounds what the fills cover, which words they dirty, and which positions are past
      them. */
  lemma EndBounds(fills: seq<Fill>, k: nat)
    requires Increasing(fills)
    ensures Covered(fills, k) ==> k < End(fills)
    ensures Dirty(fills, k / 32) ==> 32 * (k / 32) < End(fills)
    ensures End(fills) <= k ==> PastFills(fills, k)
    ensures k < End(fills) <= 32 * (k / 32) + 32 ==> !PastFills(fills, k)
  {
  }

  /** The arithmetic of one more fill: which of the three sources decides bit b of word w. */
  lemma FillArithmetic(n: nat, f: Fill, top: nat, words: nat, w: nat, b: nat,
                       covered: bool, dirty: bool, past: bool, orig: bool)
    requires n <= f.low <= top < 32 * words && (top == f.high || (top < f.high && top == 32 * words - 1))
    requires w < words && b < 32
    requires covered ==> 32 * w + b < n
    requires dirty ==> 32 * w < n
    requires n <= 32 * w + b ==> past
    requires 32 * w + b < n <= 32 * w + 32 ==> !past
    ensures var was := if 32 * w < n then covered || (dirty && past && orig) else orig;
            var k := 32 * w + b;
            var dirty' := dirty || (0 < n && (n - 1) / 32 < w && f.low / 32 == w && f.high / 32 == w);
            var past' := past && (f.low / 32 <= w ==> f.high < k);
            MarkedBit(was, w, b, f.low, top, n)
            == if 32 * w <= f.high then covered || f.low <= k <= f.high || (dirty' && past' && orig) else orig
  {
  }

  /** One more fill, possibly clamped at the end of the bitmap. */
  lemma EncodeOneMoreBit(fills: seq<Fill>, f: Fill, orig: seq<bv32>, cur: seq<bv32>, top: nat, w: nat, b: nat)
    requires Increasing(fills + [f]) && Encoded(fills, orig, cur)
    requires f.low <= top < 32 * |orig| && (top == f.high || (top < f.high && top == 32 * |orig| - 1))
    requires w < |orig| && b < 32
    ensures AfterFill(cur, w, b, f.low, top, End(fills)) == EncodedBit(fills + [f], orig, w, b)
  {
    hide Covered, Dirty, PastFills, Row, Increasing, MarkedBit, End;
    var k := 32 * w + b;
    assert k / 32 == w;
    assert Row(cur[w])[b] == EncodedBit(fills, orig, w, b);
    IncreasingParts(fills, f);
    AppendCovered(fills, f, k);
    AppendDirty(fills, f, w);
    AppendPastFills(fills, f, k);
    EndBounds(fills, k);
    FillArithmetic(End(fills), f, top, |orig|, w, b,
                   Covered(fills, k), Dirty(fills, w), PastFills(fills, k), Row(orig[w])[b]);
  }

  lemma IncreasingParts(fills: seq<Fill>, f: Fill)
    requires Increasing(fills + [f])
    ensures Increasing(fills) && End(fills) <= f.low <= f.high && End(fills + [f]) == f.high + 1
  {
    var g := fills + [f];
    assert g[|fills|] == f;
    assert forall j :: 0 <= j < |fills| ==> g[j] == fills[j];
  }

  lemma EncodeOneMore(fills: seq<Fill>, f: Fill, orig: seq<bv32>, cur: seq<bv32>, next: seq<bv32>, top: nat)
    requires Increasing(fills + [f]) && Encoded(fills, orig, cur)
    requires f.low <= top < 32 * |orig| && (top == f.high || (top < f.high && top == 32 * |orig| - 1))
    requires Filled(cur, next, f.low, top, End(fills))
    ensures Encoded(fills + [f], orig, next)
  {
    forall w, b | 0 <= w < |next| && 0 <= b < 32
      ensures Row(next[w])[b] == EncodedBit(fills + [f], orig, w, b)
    {
      assert FilledWord(cur, next[w], w, f.low, top, End(fills));
      EncodeOneMoreBit(fills, f, orig, cur, top, w, b);
    }
  }

  /** A finished encoding: numBits is one past the last marked position that fits, and every bit below it is right,
      except that stale positions keep what the buffer held. */
  ghost predicate Encodes(fills: seq<Fill>, orig: seq<bv32>, cur: seq<bv32>, numBits: nat) {
    && |cur| == |orig| && numBits <= 32 * |cur|
    && (0 < numBits ==> Covered(fills, numBits - 1))
    && (forall k :: numBits <= k < 32 * |cur| ==> !Covered(fills, k))
    && (forall k :: 0 <= k < numBits ==> (BitAt(cur, k) <==> Covered(fills, k) || (Stale(fills, k) && BitAt(orig, k))))
  }

  /** Fills that start beyond the bitmap do not matter. */
  lemma {:induction false} PrefixDecides(fills: seq<Fill>, m: nat, words: nat, k: nat)
    requires m <= |fills| && k < 32 * words
    requires forall j :: m <= j < |fills| ==> 32 * words <= fills[j].low
    ensures Covered(fills[..m], k) <==> Covered(fills, k)
    ensures Stale(fills[..m], k) <==> Stale(fills, k)
  {
    hide Covered, Dirty, PastFills;
    if m == |fills| {
      assert fills[..m] == fills;
    } else {
      var n := |fills| - 1;
      var init, f := fills[..n], fills[n];
      PrefixDecides(init, m, words, k);
      assert init[..m] == fills[..m] && init + [f] == fills;
      assert f.low / 32 >= words > k / 32;
      AppendCovered(init, f, k);
      AppendDirty(init, f, k / 32);
      AppendPastFills(init, f, k);
    }
  }

  lemma CoveredAt(fills: seq<Fill>, j: nat, k: nat)
    requires j < |fills| && fills[j].low <= k <= fills[j].high
    ensures Covered(fills, k)
  {
  }

  lemma EncodingDone(fills: seq<Fill>, m: nat, orig: seq<bv32>, cur: seq<bv32>, numBits: nat)
    requires Increasing(fills) && m <= |fills| && Encoded(fills[..m], orig, cur)
    requires forall j :: m <= j < |fills| ==> 32 * |cur| <= fills[j].low
    requires forall j :: 0 <= j < m ==> fills[j].low < 32 * |cur|
    requires numBits == if End(fills[..m]) < 32 * |cur| then End(fills[..m]) else 32 * |cur|
    requires m == 0 ==> numBits == 0
    ensures Encodes(fills, orig, cur, numBits)
  {
    hide Covered, Dirty, PastFills, Row;
    var p := fills[..m];
    forall k | 0 <= k < 32 * |cur|
      ensures numBits <= k ==> !Covered(fills, k)
      ensures k < numBits ==> (BitAt(cur, k) <==> Covered(fills, k) || (Stale(fills, k) && BitAt(orig, k)))
    {
      PrefixDecides(fills, m, |cur|, k);
      EndBounds(p, k);
      assert Row(cur[k / 32])[k % 32] == EncodedBit(p, orig, k / 32, k % 32);
      assert 32 * (k / 32) + k % 32 == k;
    }
    if 0 < numBits {
      CoveredAt(fills, m - 1, numBits - 1);
    }
  }

  lemma StaleNotCovered(fills: seq<Fill>, k: nat)
    requires Stale(fills, k)
    ensures !Covered(fills, k)
  {
  }

  /** The encoding is exact iff the buffer held no 1 at a stale position; in particular on a zeroed buffer. */
  lemma ExactIffStaleBitsZero(fills: seq<Fill>, orig: seq<bv32>, cur: seq<bv32>, numBits: nat)
    requires Encodes(fills, orig, cur, numBits)
    ensures (forall k :: 0 <= k < numBits ==> (BitAt(cur, k) <==> Covered(fills, k)))
            <==> forall k :: 0 <= k < numBits && Stale(fills, k) ==> !BitAt(orig, k)
    ensures (forall w :: 0 <= w < |orig| ==> orig[w] == 0) ==>
            forall k :: 0 <= k < numBits ==> (BitAt(cur, k) <==> Covered(fills, k))
  {
    hide Covered, Dirty, PastFills;
    forall k | 0 <= k < numBits && Stale(fills, k) ensures !Covered(fills, k) {
      StaleNotCovered(fills, k);
    }
    ConstantRows();
  }

  lemma IncreasingPrefix(fills: seq<Fill>, m: nat)
    requires Increasing(fills) && m <= |fills|
    ensures Increasing(fills[..m])
  {
  }

  lemma FillsStartInside(fills: seq<Fill>, size: nat)
    requires Increasing(fills) && fills != [] && fills[|fills| - 1].high < size
    ensures forall j :: 0 <= j < |fills| ==> fills[j].low < size
    ensures End(fills) <= size
  {
  }

  lemma NothingEncoded(orig: seq<bv32>)
    ensures Encoded([], orig, orig)
  {
  }

  /** One call of fill_bitmap_range extends the encoding by one fill, or completes what fits. */
  lemma FillEncodes(fills: seq<Fill>, iter: nat, orig: seq<bv32>, before: seq<bv32>, after: seq<bv32>,
                    fit: bool, n: nat)
    requires Increasing(fills) && 1 <= iter <= |fills| && |before| == |after| == |orig|
    requires Encoded(fills[..iter - 1], orig, before) && End(fills[..iter - 1]) <= 32 * |orig|
    requires var f := fills[iter - 1];
             && (fit <==> f.high < 32 * |orig|)
             && (32 * |orig| <= f.low ==> after == before && n == End(fills[..iter - 1]))
             && (f.low < 32 * |orig| ==>
                   var top := if fit then f.high else 32 * |orig| - 1;
                   n == top + 1 && Filled(before, after, f.low, top, End(fills[..iter - 1])))
    ensures fit ==> Encoded(fills[..iter], orig, after) && n == End(fills[..iter]) <= 32 * |orig|
    ensures !fit ==> Encodes(fills, orig, after, n)
  {
    var f := fills[iter - 1];
    assert fills[..iter] == fills[..iter - 1] + [f];
    IncreasingPrefix(fills, iter);
    IncreasingPrefix(fills, iter - 1);
    if f.low < 32 * |orig| {
      EncodeOneMore(fills[..iter - 1], f, orig, before, after, if fit then f.high else 32 * |orig| - 1);
      if !fit { EncodingDone(fills, iter, orig, after, n); }
    } else {
      EncodingDone(fills, iter - 1, orig, after, n);
    }
  }
}
