/** 32-bit words read from the most significant bit down, and bitmaps made of such words. */
module Bits {
  import opened Basics

  /** 1 << (31 - b), the shift amount being machine-sized. */
  function Mask(b: nat): bv32
    requires b < 32
  {
    (1 as bv32) << (31 - b as bv6)
  }

  predicate Bit(x: bv32, b: nat)
    requires b < 32
  {
    x & Mask(b) != 0
  }

  /** The 32 bits of a word, most significant first. */
  function Row(x: bv32): (row: seq<bool>)
    ensures |row| == 32
  {
    seq(32, b requires 0 <= b < 32 => Bit(x, b))
  }

  /** Bit k of a bitmap: bit 0 is the most significant bit of word 0. */
  predicate BitAt(words: seq<bv32>, k: nat)
    requires k < 32 * |words|
  {
    Row(words[k / 32])[k % 32]
  }

  predicate Zeroed(words: seq<bv32>) { forall w :: 0 <= w < |words| ==> words[w] == 0 }

  lemma ShiftsApart(b: bv6, c: bv6)
    requires b < 32 && c < 32 && b != c
    ensures ((1 as bv32) << (31 - b)) & ((1 as bv32) << (31 - c)) == 0
  {
  }

  lemma IndexFits(b: nat)
    requires b < 32
    ensures (b as bv6) < 32 && (b as bv6) as nat == b
  {
  }

  lemma MasksDisjoint(b: nat, c: nat)
    requires b < 32 && c < 32 && b != c
    ensures Mask(b) & Mask(c) == 0
  {
    IndexFits(b);
    IndexFits(c);
    ShiftsApart(b as bv6, c as bv6);
  }

  lemma ShiftNonZero(b: bv6)
    requires b < 32
    ensures (1 as bv32) << (31 - b) != 0
    ensures 0xFFFF_FFFF & ((1 as bv32) << (31 - b)) != 0
  {
  }

  lemma MaskNonZero(b: nat)
    requires b < 32
    ensures Mask(b) != 0 && 0xFFFF_FFFF & Mask(b) != 0
  {
    IndexFits(b);
    ShiftNonZero(b as bv6);
  }

  lemma OrSame(x: bv32, m: bv32)
    ensures (x | m) & m == m
  {
  }

  lemma OrOther(x: bv32, m: bv32, c: bv32)
    requires m & c == 0
    ensures (x | m) & c == x & c
  {
  }

  lemma AndNotSame(x: bv32, m: bv32)
    ensures (x & !m) & m == 0
  {
  }

  lemma AndNotOther(x: bv32, m: bv32, c: bv32)
    requires m & c == 0
    ensures (x & !m) & c == x & c
  {
  }

  lemma SetHit(x: bv32, b: nat)
    requires b < 32
    ensures Bit(x | Mask(b), b)
  {
    OrSame(x, Mask(b));
    MaskNonZero(b);
  }

  lemma SetMiss(x: bv32, b: nat, c: nat)
    requires b < 32 && c < 32 && b != c
    ensures Bit(x | Mask(b), c) <==> Bit(x, c)
  {
    MasksDisjoint(b, c);
    OrOther(x, Mask(b), Mask(c));
  }

  /** x |= 1 << (31 - b) sets bit b and no other. */
  lemma SetBit(x: bv32, b: nat, c: nat)
    requires b < 32 && c < 32
    ensures Bit(x | Mask(b), c) <==> Bit(x, c) || b == c
  {
    if b == c { SetHit(x, b); } else { SetMiss(x, b, c); }
  }

  lemma ClearHit(x: bv32, b: nat)
    requires b < 32
    ensures !Bit(x & !Mask(b), b)
  {
    AndNotSame(x, Mask(b));
  }

  lemma ClearMiss(x: bv32, b: nat, c: nat)
    requires b < 32 && c < 32 && b != c
    ensures Bit(x & !Mask(b), c) <==> Bit(x, c)
  {
    MasksDisjoint(b, c);
    AndNotOther(x, Mask(b), Mask(c));
  }

  /** x &= ~(1 << (31 - b)) clears bit b and no other. */
  lemma ClearBit(x: bv32, b: nat, c: nat)
    requires b < 32 && c < 32
    ensures Bit(x & !Mask(b), c) <==> Bit(x, c) && b != c
  {
    if b == c { ClearHit(x, b); } else { ClearMiss(x, b, c); }
  }

  lemma ConstantRows()
    ensures forall b :: 0 <= b < 32 ==> !Row(0)[b] && Row(0xFFFF_FFFF)[b]
  {
    forall b | 0 <= b < 32 ensures !Row(0)[b] && Row(0xFFFF_FFFF)[b] {
      MaskNonZero(b);
    }
  }

  // ---- What the bits are worth ----

  /** The number written in binary by the row, most significant digit first. */
  function Value(row: seq<bool>): nat {
    if row == [] then 0 else 2 * Value(row[..|row| - 1]) + Digit(row[|row| - 1])
  }

  /** A word as a number. */
  function Number(x: bv32): (n: nat)
    ensures n < 0x1_0000_0000
  {
    x as int
  }

  /** Doubling a word loses its top bit. */
  lemma ShiftValue(x: bv32)
    ensures 2 * Number(x) == 0x1_0000_0000 * Digit(x & 0x8000_0000 != 0) + Number(x << 1)
  {
  }

  lemma TopBit(x: bv32)
    ensures Row(x)[0] == (x & 0x8000_0000 != 0)
  {
  }

  lemma ShiftLosesTop(x: bv32)
    ensures 2 * Number(x) == 0x1_0000_0000 * Digit(Row(x)[0]) + Number(x << 1)
  {
    hide Number, Row;
    ShiftValue(x);
    TopBit(x);
  }

  lemma ShiftMask(b: bv6)
    requires b < 31
    ensures (1 as bv32) << (31 - b) == ((1 as bv32) << (31 - (b + 1))) << 1
    ensures ((1 as bv32) << (31 - (b + 1))) & 0x8000_0000 == 0
  {
  }

  lemma ShiftedTest(x: bv32, m: bv32)
    requires m & 0x8000_0000 == 0
    ensures (x << 1) & (m << 1) != 0 <==> x & m != 0
  {
  }

  lemma NextIndex(b: nat)
    requires b < 31
    ensures (b + 1) as bv6 == b as bv6 + 1
  {
  }

  lemma BelowLast(b: nat)
    requires b < 31
    ensures (b as bv6) < 31
  {
  }

  /** Shifting moves every other bit up by one. */
  lemma ShiftRow(x: bv32, b: nat)
    requires b < 31
    ensures Row(x << 1)[b] == Row(x)[b + 1]
  {
    NextIndex(b);
    BelowLast(b);
    ShiftMask(b as bv6);
    ShiftedTest(x, Mask(b + 1));
  }

  function Shifted(x: bv32, k: nat): bv32 { if k == 0 then x else Shifted(x, k - 1) << 1 }

  lemma {:induction false} ShiftedRow(x: bv32, k: nat, b: nat)
    requires k + b < 32
    ensures Row(Shifted(x, k))[b] == Row(x)[k + b]
  {
    hide Row;
    if k > 0 {
      ShiftRow(Shifted(x, k - 1), b);
      ShiftedRow(x, k - 1, b + 1);
    }
  }

  lemma NoValue()
    ensures Value([]) == 0
  {
  }

  lemma ValueSnoc(row: seq<bool>, k: nat)
    requires 0 < k <= |row|
    ensures Value(row[..k]) == 2 * Value(row[..k - 1]) + Digit(row[k - 1])
  {
    assert row[..k][..k - 1] == row[..k - 1];
  }

  /** After k shifts the first k bits have been turned into their value. */
  lemma {:induction false} ShiftedValue(x: bv32, k: nat)
    requires k <= 32
    ensures Power2(k) * Number(x) == 0x1_0000_0000 * Value(Row(x)[..k]) + Number(Shifted(x, k))
  {
    hide Row, Digit, Number, Value;
    if k == 0 {
      assert Row(x)[..0] == [];
      NoValue();
    } else {
      var y, row := Shifted(x, k - 1), Row(x);
      ShiftedValue(x, k - 1);
      ShiftLosesTop(y);
      ShiftedRow(x, k - 1, 0);
      ValueSnoc(row, k);
      OneMoreDigit(Power2(k - 1), Number(x), Value(row[..k - 1]), Number(y), Digit(row[k - 1]), Number(y << 1));
    }
  }

  lemma OneMoreDigit(p: int, x: int, v: int, y: int, d: int, z: int)
    requires p * x == 0x1_0000_0000 * v + y && 2 * y == 0x1_0000_0000 * d + z
    ensures (2 * p) * x == 0x1_0000_0000 * (2 * v + d) + z
  {
    assert (2 * p) * x == 2 * (p * x);
  }

  lemma Power32()
    ensures Power2(32) == 0x1_0000_0000
  {
    assert Power2(8) == 0x100;
    assert Power2(16) == 0x1_0000;
    assert Power2(24) == 0x100_0000;
  }

  lemma ValueIsNumber(x: bv32)
    ensures Value(Row(x)) == Number(x)
  {
    hide Row, Value, Shifted, Number;
    ShiftedValue(x, 32);
    Power32();
    assert Row(x)[..32] == Row(x);
  }

  /** The bits of a word are its binary digits. */
  lemma RowIsBinary(x: bv32)
    ensures Value(Row(x)) == Number(x) == x as int
  {
    ValueIsNumber(x);
    hide Row, Value;
  }

  lemma LastDigit(n: nat, last: bool)
    ensures (2 * n + Digit(last)) / 2 == n && ((2 * n + Digit(last)) % 2 == 1 <==> last)
  {
  }

  /** Position b of a row is the digit of that weight. */
  lemma {:induction false} DigitOfValue(row: seq<bool>, b: nat)
    requires b < |row|
    ensures row[b] <==> Value(row) / Power2(|row| - 1 - b) % 2 == 1
    decreases |row|
  {
    hide Digit;
    var init, last := row[..|row| - 1], row[|row| - 1];
    LastDigit(Value(init), last);
    if b == |init| {
      assert Power2(0) == 1;
    } else {
      DigitOfValue(init, b);
      DivideTwice(Value(row), Power2(|init| - 1 - b));
    }
  }

  /** Bit b of a word is its binary digit of weight 2^(31 - b). */
  lemma BitByValue(x: bv32, b: nat)
    requires b < 32
    ensures Row(x)[b] <==> Number(x) / Power2(31 - b) % 2 == 1
  {
    hide Row, Value, Number;
    ValueIsNumber(x);
    DigitOfValue(Row(x), b);
  }

  /** Bit k of a bitmap is the digit of weight 2^(31 - k % 32) of word k / 32. */
  lemma BitAtByValue(words: seq<bv32>, k: nat)
    requires k < 32 * |words|
    ensures BitAt(words, k) <==> Number(words[k / 32]) / Power2(31 - k % 32) % 2 == 1
  {
    hide Row, Number;
    BitByValue(words[k / 32], k % 32);
  }

  lemma {:induction false} AllZeros(row: seq<bool>)
    requires forall b :: 0 <= b < |row| ==> !row[b]
    ensures Value(row) == 0
  {
    if row != [] { AllZeros(row[..|row| - 1]); }
  }

  /** A word without a 1 is 0. */
  lemma NoOnes(x: bv32)
    requires forall b :: 0 <= b < 32 ==> !Row(x)[b]
    ensures x == 0
  {
    hide Row, Value;
    RowIsBinary(x);
    AllZeros(Row(x));
  }

  /** x & (1 << (31 - b)). */
  method TestBit(x: bv32, b: nat) returns (one: bool)
    requires b < 32
    ensures one == Row(x)[b] && (one ==> x != 0)
  {
    one := x & Mask(b) != 0;
    ConstantRows();
  }

  /** Sets bits lo..hi of x, one at a time. */
  method SetBits(x: bv32, lo: nat, hi: nat) returns (y: bv32)
    requires lo <= hi < 32
    ensures forall c :: 0 <= c < 32 ==> Row(y)[c] == (Row(x)[c] || lo <= c <= hi)
  {
    y := x;
    var b := lo;
    while b <= hi
      invariant lo <= b <= hi + 1
      invariant forall c :: 0 <= c < 32 ==> Row(y)[c] == (Row(x)[c] || lo <= c < b)
    {
      var z := y | Mask(b);
      forall c | 0 <= c < 32 ensures Row(z)[c] == (Row(y)[c] || b == c) { SetBit(y, b, c); }
      y := z;
      b := b + 1;
    }
  }

  /** Clears bits lo..hi-1 of x, one at a time. */
  method ClearBits(x: bv32, lo: nat, hi: nat) returns (y: bv32)
    requires lo <= 32 && hi <= 32
    ensures forall c :: 0 <= c < 32 ==> Row(y)[c] == (Row(x)[c] && !(lo <= c < hi))
  {
    y := x;
    var m := lo;
    while m < hi
      invariant lo <= m <= 32 && (m == lo || m <= hi)
      invariant forall c :: 0 <= c < 32 ==> Row(y)[c] == (Row(x)[c] && !(lo <= c < m))
    {
      var z := y & !Mask(m);
      forall c | 0 <= c < 32 ensures Row(z)[c] == (Row(y)[c] && m != c) { ClearBit(y, m, c); }
      y := z;
      m := m + 1;
    }
  }
}
