/** The header of a data sample: its fields, its layout on the wire, and when a buffer holds a whole one. */
module SampleHeaders {
  import opened Basics
  import opened Wire

  const MESSAGE_ID_MAX := 12
  const SUBMESSAGE_ID_MAX := 5

  // Bit numbers in the first flags octet
  const BYTE_ORDER_FLAG: nat := 0
  const COHERENT_CHANGE_FLAG: nat := 1
  const HISTORIC_SAMPLE_FLAG: nat := 2
  const LIFESPAN_DURATION_FLAG: nat := 3
  const GROUP_COHERENT_FLAG: nat := 4
  const CONTENT_FILTER_FLAG: nat := 5
  const SEQUENCE_REPAIR_FLAG: nat := 6
  const MORE_FRAGMENTS_FLAG: nat := 7
  // ... and in the second
  const CDR_ENCAP_FLAG: nat := 0
  const KEY_ONLY_FLAG: nat := 1

  /** A 64-bit sequence number as two 32-bit halves. */
  datatype SequenceNumber = SequenceNumber(high: Int32, low: UInt32)

  datatype Time = Time(sec: Int32, nanosec: UInt32)

  datatype Flags = Flags(
    byteOrder: bool, // true is little-endian
    coherentChange: bool, historicSample: bool, lifespanDuration: bool, groupCoherent: bool,
    contentFilter: bool, sequenceRepair: bool, moreFragments: bool,
    cdrEncapsulation: bool, keyFieldsOnly: bool)

  datatype Header = Header(
    messageId: Octet, submessageId: Octet, flags: Flags, messageLength: UInt32,
    sequence: SequenceNumber, source: Time,
    lifespan: Time,      // optional, see lifespanDuration
    publicationId: Guid,
    publisherId: Guid,   // optional, see groupCoherent
    entries: seq<Guid>)  // optional, see contentFilter

  /** octet & (1 << k). */
  predicate Flag(octet: nat, k: nat) {
    if k == 0 then octet % 2 == 1 else Flag(octet / 2, k - 1)
  }

  /** (flags[0] << 0) | (flags[1] << 1) | ... */
  function Pack(flags: seq<bool>): nat {
    if flags == [] then 0 else (if flags[0] then 1 else 0) + 2 * Pack(flags[1..])
  }

  lemma {:induction false} PackFits(flags: seq<bool>)
    ensures Pack(flags) < Power2(|flags|)
  {
    if flags != [] { PackFits(flags[1..]); }
  }

  lemma Halves(bit: nat, rest: nat)
    requires bit < 2
    ensures (bit + 2 * rest) / 2 == rest && (bit + 2 * rest) % 2 == bit
  {
  }

  lemma {:induction false} FlagOfPack(flags: seq<bool>, k: nat)
    requires k < |flags|
    ensures Flag(Pack(flags), k) == flags[k]
  {
    Halves(if flags[0] then 1 else 0, Pack(flags[1..]));
    if k > 0 { FlagOfPack(flags[1..], k - 1); }
  }

  function FlagList1(f: Flags): seq<bool> {
    [f.byteOrder, f.coherentChange, f.historicSample, f.lifespanDuration,
     f.groupCoherent, f.contentFilter, f.sequenceRepair, f.moreFragments]
  }

  function FlagList2(f: Flags): seq<bool> {
    [f.cdrEncapsulation, f.keyFieldsOnly, false, false, false, false, false, false]
  }

  lemma EightFlags()
    ensures Power2(8) == 256
  {
    assert Power2(4) == 16;
    assert Power2(6) == 64;
  }

  function Octet1(f: Flags): Octet { EightFlags(); PackFits(FlagList1(f)); Pack(FlagList1(f)) }

  function Octet2(f: Flags): Octet { EightFlags(); PackFits(FlagList2(f)); Pack(FlagList2(f)) }

  /** The flags told by the two flag octets. */
  function FlagsFrom(x: Octet, y: Octet): Flags {
    Flags(Flag(x, BYTE_ORDER_FLAG), Flag(x, COHERENT_CHANGE_FLAG), Flag(x, HISTORIC_SAMPLE_FLAG),
          Flag(x, LIFESPAN_DURATION_FLAG), Flag(x, GROUP_COHERENT_FLAG), Flag(x, CONTENT_FILTER_FLAG),
          Flag(x, SEQUENCE_REPAIR_FLAG), Flag(x, MORE_FRAGMENTS_FLAG), Flag(y, CDR_ENCAP_FLAG), Flag(y, KEY_ONLY_FLAG))
  }

  lemma FlagsRoundTrip(f: Flags)
    ensures FlagsFrom(Octet1(f), Octet2(f)) == f
  {
    hide Flag, Pack;
    var list1, list2 := FlagList1(f), FlagList2(f);
    FlagOfPack(list1, 0);
    FlagOfPack(list1, 1);
    FlagOfPack(list1, 2);
    FlagOfPack(list1, 3);
    FlagOfPack(list1, 4);
    FlagOfPack(list1, 5);
    FlagOfPack(list1, 6);
    FlagOfPack(list1, 7);
    FlagOfPack(list2, 0);
    FlagOfPack(list2, 1);
  }

  // ---- Marshaling ----

  function Guids(s: seq<Guid>): (b: seq<Octet>)
    ensures |b| == 16 * |s|
  {
    if s == [] then [] else s[0] + Guids(s[1..])
  }

  /** The part of a header from octet 24 on: optional lifespan, publication id, optional publisher id. */
  function Middle(host: bool, h: Header, tail: seq<Octet>): seq<Octet> {
    var swap := h.flags.byteOrder != host;
    (if h.flags.lifespanDuration
     then Put32(ToUnsigned(h.lifespan.sec), host, swap) + Put32(h.lifespan.nanosec, host, swap) else [])
    + (h.publicationId
    + ((if h.flags.groupCoherent then h.publisherId else [])
    + tail))
  }

  /** operator<< followed by `tail`. */
  function MarshalOnto(host: bool, h: Header, tail: seq<Octet>): seq<Octet> {
    var swap := h.flags.byteOrder != host;
    [h.messageId, h.submessageId, Octet1(h.flags), Octet2(h.flags)]
    + (Put32(h.messageLength, host, swap)
    + (Put32(ToUnsigned(h.sequence.high), host, swap)
    + (Put32(h.sequence.low, host, swap)
    + (Put32(ToUnsigned(h.source.sec), host, swap)
    + (Put32(h.source.nanosec, host, swap)
    + Middle(host, h, tail))))))
  }

  /** The block that add_cfentries chains after a header. */
  function EntriesOnto(host: bool, order: bool, entries: seq<Guid>, tail: seq<Octet>): seq<Octet>
    requires |entries| < 0x1_0000_0000
  {
    Put32(|entries|, host, order != host) + (Guids(entries) + tail)
  }

  /** A whole marshaled header followed by its payload. */
  function Marshal(host: bool, h: Header, payload: seq<Octet>): seq<Octet>
    requires |h.entries| < 0x1_0000_0000
  {
    MarshalOnto(host, h, if h.flags.contentFilter then EntriesOnto(host, h.flags.byteOrder, h.entries, payload)
                         else payload)
  }

  /** Marshaled size without the filter entries. */
  function FixedSize(h: Header): nat {
    40 + (if h.flags.lifespanDuration then 8 else 0) + (if h.flags.groupCoherent then 16 else 0)
  }

  function MarshaledSize(h: Header): nat {
    FixedSize(h) + if h.flags.contentFilter then 4 + 16 * |h.entries| else 0
  }

  lemma MarshalLength(host: bool, h: Header, payload: seq<Octet>)
    requires |h.entries| < 0x1_0000_0000
    ensures |Marshal(host, h, payload)| == MarshaledSize(h) + |payload|
  {
    hide Put32, Guids, Octet1, Octet2, ToUnsigned;
  }

  // ---- Layout ----

  predicate Swaps(host: bool, data: seq<Octet>)
    requires |data| > 2
  {
    Flag(data[2], BYTE_ORDER_FLAG) != host
  }

  /** Size of the fixed part, told by the flags. */
  function FixedPart(data: seq<Octet>): nat
    requires |data| > 2
  {
    40 + (if Flag(data[2], LIFESPAN_DURATION_FLAG) then 8 else 0)
    + (if Flag(data[2], GROUP_COHERENT_FLAG) then 16 else 0)
  }

  function U32At(host: bool, data: seq<Octet>, k: nat): UInt32
    requires |data| > 2 && k + 4 <= |data|
  {
    Get32(data[k..k + 4], host, Swaps(host, data))
  }

  /** The buffer holds a whole header. */
  predicate Complete(host: bool, data: seq<Octet>) {
    && |data| > 2
    && FixedPart(data) <= |data|
    && (Flag(data[2], CONTENT_FILTER_FLAG) ==>
          && FixedPart(data) + 4 <= |data|
          && FixedPart(data) + 4 + 16 * U32At(host, data, FixedPart(data)) <= |data|)
  }

  function HeaderLength(host: bool, data: seq<Octet>): (n: nat)
    requires Complete(host, data)
    ensures n <= |data|
  {
    FixedPart(data)
    + if Flag(data[2], CONTENT_FILTER_FLAG) then 4 + 16 * U32At(host, data, FixedPart(data)) else 0
  }

  function TimeAt(host: bool, data: seq<Octet>, k: nat): Time
    requires |data| > 2 && k + 8 <= |data|
  {
    Time(ToSigned(U32At(host, data, k)), U32At(host, data, k + 4))
  }

  function GuidAt(data: seq<Octet>, k: nat): Guid
    requires k + 16 <= |data|
  {
    data[k..k + 16]
  }

  function GuidsAt(data: seq<Octet>, k: nat, n: nat): (s: seq<Guid>)
    requires k + 16 * n <= |data|
    ensures |s| == n
    decreases n
  {
    if n == 0 then [] else [GuidAt(data, k)] + GuidsAt(data, k + 16, n - 1)
  }

  /** The header at the front of the buffer, field by field at its offset; absent optional fields keep `prev`. */
  function Layout(host: bool, data: seq<Octet>, prev: Header): Header
    requires Complete(host, data)
  {
    var flags := FlagsFrom(data[2], data[3]);
    var k := if flags.lifespanDuration then 32 else 24;
    Header(
      data[0], data[1], flags, U32At(host, data, 4),
      SequenceNumber(ToSigned(U32At(host, data, 8)), U32At(host, data, 12)),
      TimeAt(host, data, 16),
      if flags.lifespanDuration then TimeAt(host, data, 24) else prev.lifespan,
      GuidAt(data, k),
      if flags.groupCoherent then GuidAt(data, k + 16) else prev.publisherId,
      if flags.contentFilter
      then GuidsAt(data, FixedPart(data) + 4, U32At(host, data, FixedPart(data))) else prev.entries)
  }

  /** What a receiver that starts from `prev` knows of h: absent optional fields keep their old values. */
  function Received(h: Header, prev: Header): Header {
    h.(lifespan := if h.flags.lifespanDuration then h.lifespan else prev.lifespan,
       publisherId := if h.flags.groupCoherent then h.publisherId else prev.publisherId,
       entries := if h.flags.contentFilter then h.entries else prev.entries)
  }

  // ---- Round trip ----

  lemma Peel(data: seq<Octet>, k: nat, chunk: seq<Octet>, rest: seq<Octet>)
    requires k <= |data| && data[k..] == chunk + rest
    ensures k + |chunk| <= |data| && data[k..k + |chunk|] == chunk && data[k + |chunk|..] == rest
  {
    assert data[k..][..|chunk|] == chunk;
    assert data[k..][|chunk|..] == rest;
  }

  /** Peels one four-byte integer written by one host and read by another. */
  lemma Peel32(writer: bool, reader: bool, data: seq<Octet>, k: nat, x: UInt32, order: bool, rest: seq<Octet>)
    requires 2 < |data| && k <= |data| && Flag(data[2], BYTE_ORDER_FLAG) == order
    requires data[k..] == Put32(x, writer, order != writer) + rest
    ensures k + 4 <= |data| && U32At(reader, data, k) == x && data[k + 4..] == rest
  {
    Peel(data, k, Put32(x, writer, order != writer), rest);
    AcrossHosts(x, writer, reader, order);
  }

  lemma {:induction false} PeelGuids(data: seq<Octet>, k: nat, s: seq<Guid>, rest: seq<Octet>)
    requires k <= |data| && data[k..] == Guids(s) + rest
    ensures k + 16 * |s| <= |data| && GuidsAt(data, k, |s|) == s && data[k + 16 * |s|..] == rest
    decreases |s|
  {
    if s == [] {
      assert Guids(s) + rest == rest;
    } else {
      assert Guids(s) + rest == s[0] + (Guids(s[1..]) + rest);
      Peel(data, k, s[0], Guids(s[1..]) + rest);
      PeelGuids(data, k + 16, s[1..], rest);
      assert s == [s[0]] + s[1..];
    }
  }

  /** The first 24 octets and the flags, on any host. */
  lemma PeelFront(writer: bool, reader: bool, h: Header, tail: seq<Octet>, data: seq<Octet>)
    requires data == MarshalOnto(writer, h, tail)
    ensures 24 <= |data| && data[0] == h.messageId && data[1] == h.submessageId
    ensures FlagsFrom(data[2], data[3]) == h.flags
    ensures U32At(reader, data, 4) == h.messageLength
    ensures U32At(reader, data, 8) == ToUnsigned(h.sequence.high) && U32At(reader, data, 12) == h.sequence.low
    ensures TimeAt(reader, data, 16) == h.source
    ensures data[24..] == Middle(writer, h, tail)
  {
    hide Put32, Middle, Flag, Pack, U32At;
    var swap := h.flags.byteOrder != writer;
    var r5 := Middle(writer, h, tail);
    var r4 := Put32(h.source.nanosec, writer, swap) + r5;
    var r3 := Put32(ToUnsigned(h.source.sec), writer, swap) + r4;
    var r2 := Put32(h.sequence.low, writer, swap) + r3;
    var r1 := Put32(ToUnsigned(h.sequence.high), writer, swap) + r2;
    var r0 := Put32(h.messageLength, writer, swap) + r1;
    var front := [h.messageId, h.submessageId, Octet1(h.flags), Octet2(h.flags)];
    assert data[0..] == front + r0;
    Peel(data, 0, front, r0);
    assert data[0] == front[0] && data[1] == front[1] && data[2] == front[2] && data[3] == front[3];
    FlagsRoundTrip(h.flags);
    assert Flag(data[2], BYTE_ORDER_FLAG) == h.flags.byteOrder;
    Peel32(writer, reader, data, 4, h.messageLength, h.flags.byteOrder, r1);
    Peel32(writer, reader, data, 8, ToUnsigned(h.sequence.high), h.flags.byteOrder, r2);
    Peel32(writer, reader, data, 12, h.sequence.low, h.flags.byteOrder, r3);
    Peel32(writer, reader, data, 16, ToUnsigned(h.source.sec), h.flags.byteOrder, r4);
    Peel32(writer, reader, data, 20, h.source.nanosec, h.flags.byteOrder, r5);
    SignedRoundTrip(h.source.sec);
  }

  lemma PeelLifespan(writer: bool, reader: bool, h: Header, tail: seq<Octet>, data: seq<Octet>)
    requires 24 <= |data| && data[24..] == Middle(writer, h, tail)
    requires Flag(data[2], BYTE_ORDER_FLAG) == h.flags.byteOrder
    ensures h.flags.lifespanDuration ==>
              32 <= |data| && TimeAt(reader, data, 24) == h.lifespan
    ensures var k := if h.flags.lifespanDuration then 32 else 24;
            data[k..] == h.publicationId + ((if h.flags.groupCoherent then h.publisherId else []) + tail)
  {
    hide Put32, Flag, U32At;
    var swap := h.flags.byteOrder != writer;
    var ids := h.publicationId + ((if h.flags.groupCoherent then h.publisherId else []) + tail);
    if h.flags.lifespanDuration {
      var p, q := Put32(ToUnsigned(h.lifespan.sec), writer, swap), Put32(h.lifespan.nanosec, writer, swap);
      assert data[24..] == p + (q + ids);
      Peel32(writer, reader, data, 24, ToUnsigned(h.lifespan.sec), h.flags.byteOrder, q + ids);
      Peel32(writer, reader, data, 28, h.lifespan.nanosec, h.flags.byteOrder, ids);
      SignedRoundTrip(h.lifespan.sec);
    }
  }

  lemma PeelIds(h: Header, tail: seq<Octet>, data: seq<Octet>, k: nat)
    requires k <= |data|
    requires data[k..] == h.publicationId + ((if h.flags.groupCoherent then h.publisherId else []) + tail)
    ensures k + 16 + (if h.flags.groupCoherent then 16 else 0) <= |data|
    ensures data[k + 16 + (if h.flags.groupCoherent then 16 else 0)..] == tail
    ensures GuidAt(data, k) == h.publicationId && (h.flags.groupCoherent ==> GuidAt(data, k + 16) == h.publisherId)
  {
    Peel(data, k, h.publicationId, (if h.flags.groupCoherent then h.publisherId else []) + tail);
    if h.flags.groupCoherent { Peel(data, k + 16, h.publisherId, tail); }
  }

  /** The optional fields and identifiers that follow. */
  lemma PeelMiddle(writer: bool, reader: bool, h: Header, tail: seq<Octet>, data: seq<Octet>)
    requires 24 <= |data| && data[24..] == Middle(writer, h, tail)
    requires Flag(data[2], BYTE_ORDER_FLAG) == h.flags.byteOrder
    ensures FixedSize(h) <= |data| && data[FixedSize(h)..] == tail
    ensures h.flags.lifespanDuration ==> TimeAt(reader, data, 24) == h.lifespan
    ensures var k := if h.flags.lifespanDuration then 32 else 24;
            GuidAt(data, k) == h.publicationId && (h.flags.groupCoherent ==> GuidAt(data, k + 16) == h.publisherId)
  {
    hide Middle, Flag, U32At, GuidAt;
    PeelLifespan(writer, reader, h, tail, data);
    PeelIds(h, tail, data, if h.flags.lifespanDuration then 32 else 24);
  }

  /** The entries after the fixed part. */
  lemma PeelEntries(writer: bool, reader: bool, h: Header, payload: seq<Octet>, data: seq<Octet>)
    requires |h.entries| < 0x1_0000_0000 && 2 < |data| && Flag(data[2], BYTE_ORDER_FLAG) == h.flags.byteOrder
    requires FixedSize(h) <= |data|
    requires data[FixedSize(h)..] == EntriesOnto(writer, h.flags.byteOrder, h.entries, payload)
    ensures FixedSize(h) + 4 + 16 * |h.entries| <= |data| && data[FixedSize(h) + 4 + 16 * |h.entries|..] == payload
    ensures U32At(reader, data, FixedSize(h)) == |h.entries|
    ensures GuidsAt(data, FixedSize(h) + 4, |h.entries|) == h.entries
  {
    hide Put32, U32At, Flag, Guids, GuidsAt;
    Peel32(writer, reader, data, FixedSize(h), |h.entries|, h.flags.byteOrder, Guids(h.entries) + payload);
    PeelGuids(data, FixedSize(h) + 4, h.entries, payload);
  }

  /** A marshaled header is complete, and the payload follows it. */
  lemma MarshalIsComplete(writer: bool, reader: bool, h: Header, payload: seq<Octet>)
    requires |h.entries| < 0x1_0000_0000
    ensures var data := Marshal(writer, h, payload);
            && Complete(reader, data)
            && FixedPart(data) == FixedSize(h)
            && HeaderLength(reader, data) == MarshaledSize(h)
            && data[MarshaledSize(h)..] == payload
            && (h.flags.contentFilter ==>
                  && U32At(reader, data, FixedPart(data)) == |h.entries|
                  && GuidsAt(data, FixedPart(data) + 4, |h.entries|) == h.entries)
  {
    hide Middle, Put32, MarshalOnto, U32At, TimeAt, GuidAt, Flag, Guids, GuidsAt, EntriesOnto;
    var tail := if h.flags.contentFilter then EntriesOnto(writer, h.flags.byteOrder, h.entries, payload) else payload;
    var data := Marshal(writer, h, payload);
    PeelFront(writer, reader, h, tail, data);
    PeelMiddle(writer, reader, h, tail, data);
    if h.flags.contentFilter { PeelEntries(writer, reader, h, payload, data); }
  }

  /** Whatever host wrote a header and whatever host reads it, every marshaled field comes back. */
  lemma LayoutOfMarshal(writer: bool, reader: bool, h: Header, payload: seq<Octet>, prev: Header)
    requires |h.entries| < 0x1_0000_0000
    ensures var data := Marshal(writer, h, payload);
            Complete(reader, data) && Layout(reader, data, prev) == Received(h, prev)
  {
    hide Complete, HeaderLength, Middle, Put32, MarshalOnto, U32At, TimeAt, Flag, Guids, GuidsAt, FixedPart, GuidAt;
    MarshalIsComplete(writer, reader, h, payload);
    var tail := if h.flags.contentFilter then EntriesOnto(writer, h.flags.byteOrder, h.entries, payload) else payload;
    var data := Marshal(writer, h, payload);
    PeelFront(writer, reader, h, tail, data);
    PeelMiddle(writer, reader, h, tail, data);
    SignedRoundTrip(h.sequence.high);
  }

  // ---- DataSampleHeader::partial ----

  /** Can this buffer not be the start of a whole, valid header? `garbage` is what the uninitialised length variable
      holds when fewer than four octets of the length are there: mb_copy then reports success without filling it. */
  predicate Partial(host: bool, data: seq<Octet>, garbage: UInt32) {
    if |data| <= 2 then true
    else if data[0] >= MESSAGE_ID_MAX || data[1] >= SUBMESSAGE_ID_MAX then true
    else
      var flags := data[2];
      var expected := 64 - (if Flag(flags, LIFESPAN_DURATION_FLAG) then 0 else 8)
                      - (if Flag(flags, GROUP_COHERENT_FLAG) then 0 else 16);
      if !Flag(flags, CONTENT_FILTER_FLAG) then |data| < expected
      else if |data| <= expected then true
      else
        var seqLen := if expected + 4 <= |data|
                      then Get32(data[expected..expected + 4], host, Flag(flags, BYTE_ORDER_FLAG) != host) else garbage;
        |data| < expected + 4 + 16 * seqLen
  }

  predicate ValidIds(data: seq<Octet>) {
    |data| > 1 && data[0] < MESSAGE_ID_MAX && data[1] < SUBMESSAGE_ID_MAX
  }

  /** On every buffer, partial is the exact negation of "valid and complete", whatever the garbage. */
  lemma PartialIffIncomplete(host: bool, data: seq<Octet>, garbage: UInt32)
    ensures Partial(host, data, garbage) <==> !(ValidIds(data) && Complete(host, data))
  {
  }

  lemma SamePrefix(host: bool, data: seq<Octet>, n: nat, k: nat)
    requires 2 < n <= |data|
    ensures FixedPart(data[..n]) == FixedPart(data) && data[..n][2] == data[2]
    ensures k + 4 <= n ==> U32At(host, data[..n], k) == U32At(host, data, k)
  {
    hide Flag, Get32;
    assert k + 4 <= n ==> data[..n][k..k + 4] == data[k..k + 4];
  }

  /** A prefix of a complete buffer is complete iff it reaches the end of the header. */
  lemma CompletePrefix(host: bool, data: seq<Octet>, n: nat)
    requires Complete(host, data) && n <= |data|
    ensures Complete(host, data[..n]) <==> HeaderLength(host, data) <= n
  {
    hide Flag, U32At;
    if 2 < n { SamePrefix(host, data, n, FixedPart(data)); }
  }

  /** partial is true on every proper prefix of a valid marshaled header, and false once all of it has arrived. */
  lemma PartialOnPrefixes(writer: bool, reader: bool, h: Header, payload: seq<Octet>, n: nat, garbage: UInt32)
    requires |h.entries| < 0x1_0000_0000 && h.messageId < MESSAGE_ID_MAX && h.submessageId < SUBMESSAGE_ID_MAX
    requires n <= |Marshal(writer, h, payload)|
    ensures Partial(reader, Marshal(writer, h, payload)[..n], garbage) <==> n < MarshaledSize(h)
  {
    hide Partial, Complete, HeaderLength, Flag, MarshalOnto, Put32, Get32;
    var data := Marshal(writer, h, payload);
    MarshalIsComplete(writer, reader, h, payload);
    CompletePrefix(reader, data, n);
    PartialIffIncomplete(reader, data[..n], garbage);
    PeelFront(writer, reader, h,
              if h.flags.contentFilter then EntriesOnto(writer, h.flags.byteOrder, h.entries, payload) else payload,
              data);
  }
}
