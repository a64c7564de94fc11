/** A marshaled header octet by octet, in plain arithmetic: what each flag and each field is on the wire. */
module HeaderOctets {
  import opened Basics
  import opened Wire
  import opened SampleHeaders

  /** The 32-bit number at k, little-endian iff the lowest bit of octet 2 is 1. */
  function WordAt(data: seq<Octet>, k: nat): nat
    requires 2 < |data| && k + 4 <= |data|
  {
    var a: int, b: int, c: int, d: int := data[k], data[k + 1], data[k + 2], data[k + 3];
    if data[2] % 2 == 1 then a + 0x100 * b + 0x1_0000 * c + 0x100_0000 * d
    else 0x100_0000 * a + 0x1_0000 * b + 0x100 * c + d
  }

  /** The binary digit of the given weight is 1. */
  predicate One(octet: Octet, weight: nat)
    requires 0 < weight
  {
    octet / weight % 2 == 1
  }

  /** Octets before the filter entries. */
  function EntriesOffset(data: seq<Octet>): nat
    requires 2 < |data|
  {
    40 + (if One(data[2], 8) then 8 else 0) + if One(data[2], 16) then 16 else 0
  }

  // ---- Flags ----

  lemma FlagByValue(octet: Octet)
    ensures Flag(octet, 0) <==> One(octet, 1)
    ensures Flag(octet, 1) <==> One(octet, 2)
    ensures Flag(octet, 2) <==> One(octet, 4)
    ensures Flag(octet, 3) <==> One(octet, 8)
    ensures Flag(octet, 4) <==> One(octet, 16)
    ensures Flag(octet, 5) <==> One(octet, 32)
    ensures Flag(octet, 6) <==> One(octet, 64)
    ensures Flag(octet, 7) <==> One(octet, 128)
  {
    hide Flag;
    FlagDigit(octet, 0);
    FlagDigit(octet, 1);
    FlagDigit(octet, 2);
    FlagDigit(octet, 3);
    FlagDigit(octet, 4);
    FlagDigit(octet, 5);
    FlagDigit(octet, 6);
    FlagDigit(octet, 7);
    Powers();
  }

  lemma Powers()
    ensures Power2(0) == 1 && Power2(1) == 2 && Power2(2) == 4 && Power2(3) == 8
    ensures Power2(4) == 16 && Power2(5) == 32 && Power2(6) == 64 && Power2(7) == 128
  {
  }

  /** Flag k is the binary digit of weight 2^k. */
  lemma {:induction false} FlagDigit(octet: nat, k: nat)
    ensures Flag(octet, k) <==> octet / Power2(k) % 2 == 1
    decreases k
  {
    if k == 0 {
      assert Power2(0) == 1;
    } else {
      FlagDigit(octet / 2, k - 1);
      DivideTwice(octet, Power2(k - 1));
    }
  }

  /** Which bit of which octet each flag is read from. */
  lemma FlagsByValue(x: Octet, y: Octet)
    ensures FlagsFrom(x, y) ==
            Flags(byteOrder := x % 2 == 1, coherentChange := x / 2 % 2 == 1, historicSample := x / 4 % 2 == 1,
                  lifespanDuration := x / 8 % 2 == 1, groupCoherent := x / 16 % 2 == 1,
                  contentFilter := x / 32 % 2 == 1, sequenceRepair := x / 64 % 2 == 1,
                  moreFragments := x / 128 % 2 == 1,
                  cdrEncapsulation := y % 2 == 1, keyFieldsOnly := y / 2 % 2 == 1)
  {
    FlagsByDigits(x, y);
  }

  lemma FlagsByDigits(x: Octet, y: Octet)
    ensures FlagsFrom(x, y) ==
            Flags(byteOrder := One(x, 1), coherentChange := One(x, 2), historicSample := One(x, 4),
                  lifespanDuration := One(x, 8), groupCoherent := One(x, 16), contentFilter := One(x, 32),
                  sequenceRepair := One(x, 64), moreFragments := One(x, 128),
                  cdrEncapsulation := One(y, 1), keyFieldsOnly := One(y, 2))
  {
    hide Flag, One;
    FlagByValue(x);
    FlagByValue(y);
  }

  /** What each flag is worth in the octet it is written to. */
  lemma FlagOctets(f: Flags)
    ensures Octet1(f) == 1 * Digit(f.byteOrder) + 2 * Digit(f.coherentChange) + 4 * Digit(f.historicSample)
                         + 8 * Digit(f.lifespanDuration) + 16 * Digit(f.groupCoherent) + 32 * Digit(f.contentFilter)
                         + 64 * Digit(f.sequenceRepair) + 128 * Digit(f.moreFragments)
    ensures Octet2(f) == 1 * Digit(f.cdrEncapsulation) + 2 * Digit(f.keyFieldsOnly)
  {
    hide One, Octet1, Octet2, Digit, FlagsFrom;
    FlagsRoundTrip(f);
    FlagsByDigits(Octet1(f), Octet2(f));
    OctetIsBinary(Octet1(f));
    SecondOctetSmall(f);
    TwoDigits(Octet2(f));
  }

  /** An octet is the sum of its binary digits. */
  lemma OctetIsBinary(x: Octet)
    ensures x == 1 * Digit(One(x, 1)) + 2 * Digit(One(x, 2)) + 4 * Digit(One(x, 4)) + 8 * Digit(One(x, 8))
                 + 16 * Digit(One(x, 16)) + 32 * Digit(One(x, 32)) + 64 * Digit(One(x, 64)) + 128 * Digit(One(x, 128))
  {
    hide One, Digit, Part;
    FourDigits(x, 1, 2, 4, 8, 16);
    FourDigits(x, 16, 32, 64, 128, 256);
    WholeAndNothing(x);
  }

  lemma TwoDigits(x: Octet)
    requires x < 4
    ensures x == 1 * Digit(One(x, 1)) + 2 * Digit(One(x, 2))
  {
    hide One, Digit, Part;
    OneDigit(x, 1, 2);
    OneDigit(x, 2, 4);
    WholeAndNothing(x);
  }

  lemma FourDigits(x: Octet, a: nat, b: nat, c: nat, d: nat, e: nat)
    requires 0 < a && b == 2 * a && c == 2 * b && d == 2 * c && e == 2 * d
    ensures Part(x, a) == Digit(One(x, a)) + 2 * Digit(One(x, b)) + 4 * Digit(One(x, c)) + 8 * Digit(One(x, d))
                          + 16 * Part(x, e)
  {
    hide One, Digit, Part;
    OneDigit(x, a, b);
    OneDigit(x, b, c);
    OneDigit(x, c, d);
    OneDigit(x, d, e);
  }

  function Part(x: Octet, weight: nat): nat
    requires 0 < weight
  {
    x / weight
  }

  lemma OneDigit(x: Octet, weight: nat, twice: nat)
    requires 0 < weight && twice == 2 * weight
    ensures Part(x, weight) == Digit(One(x, weight)) + 2 * Part(x, twice)
  {
    DivideThenHalf(x, weight);
  }

  lemma WholeAndNothing(x: Octet)
    ensures Part(x, 1) == x && Part(x, 256) == 0 && (x < 4 ==> Part(x, 4) == 0)
  {
  }

  lemma SecondOctetSmall(f: Flags)
    ensures Octet2(f) < 4
  {
    var l := FlagList2(f);
    NoFlags(l[2..]);
    assert l[1..][1..] == l[2..];
    assert Pack(l[1..]) == Digit(l[1]) + 2 * Pack(l[2..]);
  }

  lemma {:induction false} NoFlags(s: seq<bool>)
    requires forall i :: 0 <= i < |s| ==> !s[i]
    ensures Pack(s) == 0
  {
    if s != [] { NoFlags(s[1..]); }
  }

  // ---- Numbers ----

  /** Any host reads the number the octets stand for. */
  lemma U32ByValue(host: bool, data: seq<Octet>, k: nat)
    requires 2 < |data| && k + 4 <= |data|
    ensures var a: int, b: int, c: int, d: int := data[k], data[k + 1], data[k + 2], data[k + 3];
            U32At(host, data, k) == if data[2] % 2 == 1 then a + 0x100 * b + 0x1_0000 * c + 0x100_0000 * d
                                    else 0x100_0000 * a + 0x1_0000 * b + 0x100 * c + d
    ensures U32At(host, data, k) == WordAt(data, k)
  {
    var b := data[k..k + 4];
    assert b[0] == data[k] && b[1] == data[k + 1] && b[2] == data[k + 2] && b[3] == data[k + 3];
  }

  /** The octets of a number as a host writes it in the given order. */
  lemma Put32ByValue(x: UInt32, host: bool, order: bool)
    ensures var s := Put32(x, host, order != host);
            var a: int, b: int, c: int, d: int := s[0], s[1], s[2], s[3];
            x == if order then a + 0x100 * b + 0x1_0000 * c + 0x100_0000 * d
                 else 0x100_0000 * a + 0x1_0000 * b + 0x100 * c + d
  {
    AcrossHosts(x, host, host, order);
    Digits(x);
  }

  /** x and y are the same in 32-bit two's complement. */
  predicate Congruent(x: int, y: int) { (x - y) % 0x1_0000_0000 == 0 }

  lemma SignedByValue(x: UInt32, y: Int32)
    ensures Congruent(ToSigned(x), x) && Congruent(ToUnsigned(y), y)
  {
  }

  // ---- The whole header ----

  /** The 24 octets in front: identifiers, flags, length, sequence number and timestamp. */
  ghost predicate FrontIn(data: seq<Octet>, h: Header)
    requires 24 <= |data|
  {
    && h.messageId == data[0] && h.submessageId == data[1]
    && h.flags == Flags(byteOrder := One(data[2], 1), coherentChange := One(data[2], 2),
                        historicSample := One(data[2], 4), lifespanDuration := One(data[2], 8),
                        groupCoherent := One(data[2], 16), contentFilter := One(data[2], 32),
                        sequenceRepair := One(data[2], 64), moreFragments := One(data[2], 128),
                        cdrEncapsulation := One(data[3], 1), keyFieldsOnly := One(data[3], 2))
    && h.messageLength == WordAt(data, 4)
    && Congruent(h.sequence.high, WordAt(data, 8)) && h.sequence.low == WordAt(data, 12)
    && Congruent(h.source.sec, WordAt(data, 16)) && h.source.nanosec == WordAt(data, 20)
  }

  /** The optional lifespan, the publication and the optional publisher; k is where the publication is. */
  ghost predicate MiddleIn(data: seq<Octet>, h: Header)
    requires 2 < |data| && EntriesOffset(data) <= |data|
  {
    var k := if One(data[2], 8) then 32 else 24;
    && (One(data[2], 8) ==>
          Congruent(h.lifespan.sec, WordAt(data, 24)) && h.lifespan.nanosec == WordAt(data, 28))
    && h.publicationId == data[k..k + 16]
    && (One(data[2], 16) ==> h.publisherId == data[k + 16..k + 32])
  }

  /** The optional entries: a count and so many identifiers. */
  ghost predicate EntriesIn(data: seq<Octet>, h: Header)
    requires 2 < |data|
  {
    var k := EntriesOffset(data);
    One(data[2], 32) ==>
      && k + 4 + 16 * |h.entries| <= |data| && |h.entries| == WordAt(data, k)
      && forall i :: 0 <= i < |h.entries| ==> h.entries[i] == data[k + 4 + 16 * i..k + 4 + 16 * i + 16]
  }

  /** data starts with the n octets of h. */
  ghost predicate HeaderIn(data: seq<Octet>, h: Header, n: nat) {
    && 24 <= |data| && EntriesOffset(data) <= |data|
    && FrontIn(data, h) && MiddleIn(data, h) && EntriesIn(data, h)
    && n == EntriesOffset(data) + if One(data[2], 32) then 4 + 16 * |h.entries| else 0
  }

  /** A buffer holds a whole header iff it is as long as its flags and its count of entries say. */
  lemma CompleteByOctets(host: bool, data: seq<Octet>)
    ensures Complete(host, data) <==>
            && 2 < |data| && EntriesOffset(data) <= |data|
            && (One(data[2], 32) ==>
                  && EntriesOffset(data) + 4 <= |data|
                  && EntriesOffset(data) + 4 + 16 * WordAt(data, EntriesOffset(data)) <= |data|)
    ensures Complete(host, data) ==>
              && FixedPart(data) == EntriesOffset(data)
              && (One(data[2], 32) ==> U32At(host, data, FixedPart(data)) == WordAt(data, EntriesOffset(data)))
  {
    hide Flag, U32At, WordAt, One;
    if 2 < |data| {
      FlagByValue(data[2]);
      if EntriesOffset(data) + 4 <= |data| { U32ByValue(host, data, EntriesOffset(data)); }
    }
  }

  /** partial is false exactly on buffers with a message id below 12, a submessage id below 5 and a whole header. */
  lemma PartialByOctets(host: bool, data: seq<Octet>, garbage: UInt32)
    ensures !Partial(host, data, garbage) <==>
            && 2 < |data| && data[0] < 12 && data[1] < 5 && EntriesOffset(data) <= |data|
            && (data[2] / 32 % 2 == 1 ==>
                  && EntriesOffset(data) + 4 <= |data|
                  && EntriesOffset(data) + 4 + 16 * WordAt(data, EntriesOffset(data)) <= |data|)
  {
    PartialIffIncomplete(host, data, garbage);
    CompleteByOctets(host, data);
    hide Partial, Complete, WordAt, EntriesOffset;
  }

  lemma {:induction false} GuidsByOffset(data: seq<Octet>, k: nat, n: nat, i: nat)
    requires k + 16 * n <= |data| && i < n
    ensures GuidsAt(data, k, n)[i] == data[k + 16 * i..k + 16 * i + 16]
    decreases n
  {
    if i > 0 { GuidsByOffset(data, k + 16, n - 1, i - 1); }
  }

  lemma FrontByOctets(host: bool, data: seq<Octet>, prev: Header)
    requires Complete(host, data)
    ensures 24 <= |data| && FrontIn(data, Layout(host, data, prev))
  {
    hide One;
    CompleteByOctets(host, data);
    FlagsByDigits(data[2], data[3]);
    hide U32At, WordAt, GuidsAt, GuidAt, Flag, ToSigned, Congruent;
    U32ByValue(host, data, 4);
    U32ByValue(host, data, 8);
    U32ByValue(host, data, 12);
    U32ByValue(host, data, 16);
    U32ByValue(host, data, 20);
    SignedByValue(U32At(host, data, 8), 0);
    SignedByValue(U32At(host, data, 16), 0);
  }

  lemma MiddleByOctets(host: bool, data: seq<Octet>, prev: Header)
    requires Complete(host, data)
    ensures EntriesOffset(data) <= |data| && MiddleIn(data, Layout(host, data, prev))
  {
    hide One;
    CompleteByOctets(host, data);
    FlagsByDigits(data[2], data[3]);
    hide U32At, WordAt, GuidsAt, Flag, ToSigned, Congruent;
    if One(data[2], 8) {
      U32ByValue(host, data, 24);
      U32ByValue(host, data, 28);
      SignedByValue(U32At(host, data, 24), 0);
    }
  }

  lemma EntriesAt(data: seq<Octet>, k: nat, n: nat)
    requires k + 16 * n <= |data|
    ensures forall i :: 0 <= i < n ==> GuidsAt(data, k, n)[i] == data[k + 16 * i..k + 16 * i + 16]
  {
    forall i | 0 <= i < n ensures GuidsAt(data, k, n)[i] == data[k + 16 * i..k + 16 * i + 16] {
      GuidsByOffset(data, k, n, i);
    }
  }

  lemma EntriesByOctets(host: bool, data: seq<Octet>, prev: Header)
    requires Complete(host, data)
    ensures EntriesIn(data, Layout(host, data, prev))
    ensures HeaderLength(host, data) ==
            EntriesOffset(data) + if One(data[2], 32) then 4 + 16 * |Layout(host, data, prev).entries| else 0
  {
    hide One, FlagsFrom, Flag, U32At, WordAt, TimeAt, GuidsAt, GuidAt, EntriesOffset;
    CompleteByOctets(host, data);
    FlagsByDigits(data[2], data[3]);
    FlagByValue(data[2]);
    if One(data[2], 32) { EntriesAt(data, FixedPart(data) + 4, U32At(host, data, FixedPart(data))); }
  }

  /** What is read from a complete buffer is what its octets say. */
  lemma LayoutByOctets(host: bool, data: seq<Octet>, prev: Header)
    requires Complete(host, data)
    ensures HeaderIn(data, Layout(host, data, prev), HeaderLength(host, data))
  {
    hide Layout, Complete, HeaderLength, FrontIn, MiddleIn, EntriesIn;
    FrontByOctets(host, data, prev);
    MiddleByOctets(host, data, prev);
    EntriesByOctets(host, data, prev);
  }

  /** Fields that the flags declare absent keep their old values. */
  lemma AbsentKept(host: bool, data: seq<Octet>, prev: Header)
    requires Complete(host, data)
    ensures var h := Layout(host, data, prev);
            && (data[2] / 8 % 2 == 0 ==> h.lifespan == prev.lifespan)
            && (data[2] / 16 % 2 == 0 ==> h.publisherId == prev.publisherId)
            && (data[2] / 32 % 2 == 0 ==> h.entries == prev.entries)
  {
    FlagsByDigits(data[2], data[3]);
    hide FlagsFrom, U32At, GuidsAt, GuidAt;
  }

  /** What is written for a header are octets that say it. */
  lemma MarshalByOctets(host: bool, h: Header, payload: seq<Octet>)
    requires |h.entries| < 0x1_0000_0000
    ensures HeaderIn(Marshal(host, h, payload), h, MarshaledSize(h))
    ensures Marshal(host, h, payload)[MarshaledSize(h)..] == payload
  {
    hide Layout, Complete, HeaderLength, HeaderIn, Marshal, Received;
    MarshalIsComplete(host, host, h, payload);
    LayoutOfMarshal(host, host, h, payload, h);
    LayoutByOctets(host, Marshal(host, h, payload), h);
    ReceivedByItself(h);
  }

  lemma ReceivedByItself(h: Header)
    ensures Received(h, h) == h
  {
  }

  /** The flag octets and the length of a marshaled header, in numbers. */
  lemma MarshaledOctets(host: bool, h: Header, payload: seq<Octet>)
    requires |h.entries| < 0x1_0000_0000
    ensures var data, f := Marshal(host, h, payload), h.flags;
            && 24 <= |data|
            && data[2] == 1 * Digit(f.byteOrder) + 2 * Digit(f.coherentChange) + 4 * Digit(f.historicSample)
                          + 8 * Digit(f.lifespanDuration) + 16 * Digit(f.groupCoherent) + 32 * Digit(f.contentFilter)
                          + 64 * Digit(f.sequenceRepair) + 128 * Digit(f.moreFragments)
            && data[3] == 1 * Digit(f.cdrEncapsulation) + 2 * Digit(f.keyFieldsOnly)
            && (f.byteOrder ==>
                  h.messageLength == data[4] as int + 0x100 * (data[5] as int) + 0x1_0000 * (data[6] as int)
                                     + 0x100_0000 * (data[7] as int))
            && (!f.byteOrder ==>
                  h.messageLength == 0x100_0000 * (data[4] as int) + 0x1_0000 * (data[5] as int)
                                     + 0x100 * (data[6] as int) + data[7] as int)
  {
    var data := Marshal(host, h, payload);
    MarshalByOctets(host, h, payload);
    FlagOctets(h.flags);
    hide Digit, Middle, Put32, Octet1, Octet2, MiddleIn, EntriesIn;
    assert One(data[2], 1) == h.flags.byteOrder;
    assert data[2] == Octet1(h.flags) && data[3] == Octet2(h.flags);
  }
}
