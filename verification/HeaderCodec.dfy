/** DataSampleHeader::init and add_cfentries: reading a header field by field from a buffer whose front moves along. */
module HeaderCodec {
  import opened Wire
  import opened SampleHeaders
  import opened HeaderOctets

  /** A flat message block; data is what lies between its read and write pointers. */
  class MessageBlock {
    var data: seq<Octet>

    constructor (data: seq<Octet>)
      ensures this.data == data
    {
      this.data := data;
    }

    // The ghost parameters say that k octets of the buffer `all` have been consumed so far.

    method Read(n: nat, ghost all: seq<Octet>, ghost k: nat) returns (ok: bool, octets: seq<Octet>)
      requires k <= |all| && data == all[k..]
      modifies this
      ensures ok <==> k + n <= |all|
      ensures ok ==> octets == all[k..k + n] && data == all[k + n..]
    {
      if |data| < n {
        data := [];
        return false, [];
      }
      ok, octets, data := true, data[..n], data[n..];
    }

    method ReadOctet(ghost all: seq<Octet>, ghost k: nat) returns (ok: bool, x: Octet)
      requires k <= |all| && data == all[k..]
      modifies this
      ensures ok <==> k < |all|
      ensures ok ==> x == all[k] && data == all[k + 1..]
    {
      var b;
      ok, b := Read(1, all, k);
      x := if ok then b[0] else 0;
    }

    method Read32(host: bool, swap: bool, ghost all: seq<Octet>, ghost k: nat) returns (ok: bool, x: UInt32)
      requires 2 < |all| && k <= |all| && data == all[k..] && swap == Swaps(host, all)
      modifies this
      ensures ok <==> k + 4 <= |all|
      ensures ok ==> x == U32At(host, all, k) && data == all[k + 4..]
    {
      var b;
      ok, b := Read(4, all, k);
      x := if ok then Get32(b, host, swap) else 0;
    }

    method ReadGuid(ghost all: seq<Octet>, ghost k: nat) returns (ok: bool, g: Guid)
      requires k <= |all| && data == all[k..]
      modifies this
      ensures ok <==> k + 16 <= |all|
      ensures ok ==> g == GuidAt(all, k) && data == all[k + 16..]
    {
      var b;
      ok, b := Read(16, all, k);
      g := if ok then b else GUID_UNKNOWN;
    }

    /** A sequence of identifiers: a count, then that many. */
    method ReadGuids(host: bool, swap: bool, ghost all: seq<Octet>, ghost k: nat) returns (ok: bool, s: seq<Guid>)
      requires 2 < |all| && k <= |all| && data == all[k..] && swap == Swaps(host, all)
      modifies this
      ensures ok <==> k + 4 <= |all| && k + 4 + 16 * U32At(host, all, k) <= |all|
      ensures ok ==>
                var n := U32At(host, all, k);
                s == GuidsAt(all, k + 4, n) && data == all[k + 4 + 16 * n..]
    {
      hide U32At;
      s := [];
      var n;
      ok, n := Read32(host, swap, all, k);
      if !ok { return; }
      var i: nat := 0;
      while i < n
        invariant 0 <= i <= n && k + 4 + 16 * i <= |all| && data == all[k + 4 + 16 * i..]
        invariant s == GuidsAt(all, k + 4, i)
      {
        var g;
        ok, g := ReadGuid(all, k + 4 + 16 * i);
        if !ok { return; }
        GuidsAtAppend(all, k + 4, i);
        s := s + [g];
        i := i + 1;
      }
    }
  }

  lemma {:induction false} GuidsAtAppend(data: seq<Octet>, k: nat, n: nat)
    requires k + 16 * (n + 1) <= |data|
    ensures GuidsAt(data, k, n + 1) == GuidsAt(data, k, n) + [GuidAt(data, k + 16 * n)]
    decreases n
  {
    if n > 0 { GuidsAtAppend(data, k + 16, n - 1); }
  }

  /** The flags of the first octet; those of the second are not known yet. */
  function FirstFlags(x: Octet, prev: Flags): Flags {
    FlagsFrom(x, 0).(cdrEncapsulation := prev.cdrEncapsulation, keyFieldsOnly := prev.keyFieldsOnly)
  }

  /** prev with the ids and flags. */
  ghost function WithFlags(data: seq<Octet>, prev: Header): Header
    requires 4 <= |data|
  {
    prev.(messageId := data[0], submessageId := data[1], flags := FlagsFrom(data[2], data[3]))
  }

  /** prev with length, sequence number and timestamp. */
  ghost function WithTimes(host: bool, data: seq<Octet>, prev: Header): (h: Header)
    requires 24 <= |data|
    ensures h.flags == prev.flags
  {
    prev.(messageLength := U32At(host, data, 4),
          sequence := SequenceNumber(ToSigned(U32At(host, data, 8)), U32At(host, data, 12)),
          source := TimeAt(host, data, 16))
  }

  /** prev with the optional lifespan. */
  ghost function WithLifespan(host: bool, data: seq<Octet>, prev: Header): (h: Header)
    requires (if prev.flags.lifespanDuration then 32 else 24) <= |data|
    ensures h.flags == prev.flags
  {
    if prev.flags.lifespanDuration then prev.(lifespan := TimeAt(host, data, 24)) else prev
  }

  /** prev with the identifiers found at k. */
  ghost function WithIds(data: seq<Octet>, k: nat, prev: Header): (h: Header)
    requires k + (if prev.flags.groupCoherent then 32 else 16) <= |data|
    ensures h.flags == prev.flags
  {
    var r := prev.(publicationId := GuidAt(data, k));
    if r.flags.groupCoherent then r.(publisherId := GuidAt(data, k + 16)) else r
  }

  /** The entries, if any, are all there. */
  ghost predicate HasEntries(host: bool, data: seq<Octet>, k: nat, h: Header)
    requires 2 < |data|
  {
    h.flags.contentFilter ==> k + 4 <= |data| && k + 4 + 16 * U32At(host, data, k) <= |data|
  }

  /** prev with the optional entries found at k. */
  ghost function WithEntries(host: bool, data: seq<Octet>, k: nat, prev: Header): (h: Header)
    requires 2 < |data| && HasEntries(host, data, k, prev)
    ensures h.flags == prev.flags
  {
    if prev.flags.contentFilter then prev.(entries := GuidsAt(data, k + 4, U32At(host, data, k))) else prev
  }

  /** Reading a complete header in these steps gives its layout. */
  lemma LayoutBySteps(host: bool, data: seq<Octet>, prev: Header)
    requires Complete(host, data)
    ensures var h := WithTimes(host, data, WithFlags(data, prev));
            var k := if h.flags.lifespanDuration then 32 else 24;
            && k + (if h.flags.groupCoherent then 32 else 16) == FixedPart(data) <= |data|
            && var h' := WithIds(data, k, WithLifespan(host, data, h));
            && h'.flags == h.flags && HasEntries(host, data, FixedPart(data), h')
            && WithEntries(host, data, FixedPart(data), h') == Layout(host, data, prev)
  {
    hide Flag, U32At, TimeAt, GuidsAt, GuidAt, ToSigned;
  }

  /** A header under construction. */
  class DataSampleHeader {
    var fields: Header
    var marshaledSize: nat

    constructor (defaults: Header)
      ensures fields == defaults && marshaledSize == 0
    {
      fields, marshaledSize := defaults, 0;
    }

    /** Fills the fields from the buffer, stopping at the first field that is not all there. */
    method Init(host: bool, buffer: MessageBlock)
      modifies this, buffer
      ensures marshaledSize <= |old(buffer.data)|
      ensures Complete(host, old(buffer.data)) ==>
                && fields == Layout(host, old(buffer.data), old(fields))
                && marshaledSize == HeaderLength(host, old(buffer.data))
                && HeaderIn(old(buffer.data), fields, marshaledSize)
                && (old(buffer.data)[2] / 8 % 2 == 0 ==> fields.lifespan == old(fields.lifespan))
                && (old(buffer.data)[2] / 16 % 2 == 0 ==> fields.publisherId == old(fields.publisherId))
                && (old(buffer.data)[2] / 32 % 2 == 0 ==> fields.entries == old(fields.entries))
                && buffer.data == old(buffer.data)[marshaledSize..]
    {
      hide *;
      ghost var all, prev := buffer.data, fields;
      InitFields(host, buffer);
      if Complete(host, all) {
        LayoutByOctets(host, all, prev);
        AbsentKept(host, all, prev);
      }
    }

    method InitFields(host: bool, buffer: MessageBlock)
      modifies this, buffer
      ensures marshaledSize <= |old(buffer.data)|
      ensures Complete(host, old(buffer.data)) ==>
                && fields == Layout(host, old(buffer.data), old(fields))
                && marshaledSize == HeaderLength(host, old(buffer.data))
                && buffer.data == old(buffer.data)[marshaledSize..]
    {
      hide Flag, U32At, TimeAt, GuidsAt, GuidAt, ToSigned, Layout, WithTimes, WithLifespan, WithIds, WithEntries;
      marshaledSize := 0;
      ghost var all := buffer.data;
      var ok := InitMessage(buffer);
      if !ok { return; }
      ok := InitFlags(buffer, all);
      if !ok { return; }
      if Complete(host, all) { LayoutBySteps(host, all, old(fields)); }
      var swap := fields.flags.byteOrder != host;
      ok := InitTimes(host, swap, buffer, all);
      if !ok { return; }
      ok := InitLifespan(host, swap, buffer, all);
      if !ok { return; }
      ok := InitIds(buffer, all);
      if !ok { return; }
      ok := InitEntries(host, swap, buffer, all);
    }

    /** Only octet-sized reads until the byte order is known. */
    method InitMessage(buffer: MessageBlock) returns (ok: bool)
      requires marshaledSize == 0
      modifies this, buffer
      ensures ok <==> 2 <= |old(buffer.data)|
      ensures ok ==>
                && fields == old(fields).(messageId := old(buffer.data)[0], submessageId := old(buffer.data)[1])
                && marshaledSize == 2 && buffer.data == old(buffer.data)[2..]
      ensures !ok ==> marshaledSize <= |old(buffer.data)|
    {
      ghost var all := buffer.data;
      var x;
      ok, x := buffer.ReadOctet(all, 0);
      if !ok { return; }
      fields, marshaledSize := fields.(messageId := x), marshaledSize + 1;
      ok, x := buffer.ReadOctet(all, 1);
      if !ok { return; }
      fields, marshaledSize := fields.(submessageId := x), marshaledSize + 1;
    }

    /** The two octets of flags. */
    method InitFlags(buffer: MessageBlock, ghost all: seq<Octet>) returns (ok: bool)
      requires marshaledSize == 2 <= |all| && buffer.data == all[2..]
      modifies this, buffer
      ensures ok <==> 4 <= |all|
      ensures ok ==> fields == old(fields).(flags := FlagsFrom(all[2], all[3])) && marshaledSize == 4
                     && buffer.data == all[4..]
      ensures !ok ==> marshaledSize <= |all|
    {
      hide Flag;
      var x, y;
      ok, x := buffer.ReadOctet(all, 2);
      if !ok { return; }
      marshaledSize := marshaledSize + 1;
      fields := fields.(flags := FirstFlags(x, fields.flags));
      ok, y := buffer.ReadOctet(all, 3);
      if !ok { return; }
      marshaledSize := marshaledSize + 1;
      fields := fields.(flags := fields.flags.(cdrEncapsulation := Flag(y, CDR_ENCAP_FLAG),
                                               keyFieldsOnly := Flag(y, KEY_ONLY_FLAG)));
    }

    /** Length, sequence number and timestamp; `all` is the whole buffer, of which four octets are consumed. */
    method InitTimes(host: bool, swap: bool, buffer: MessageBlock, ghost all: seq<Octet>) returns (ok: bool)
      requires marshaledSize == 4 <= |all| && buffer.data == all[4..] && swap == Swaps(host, all)
      modifies this, buffer
      ensures ok <==> 24 <= |all|
      ensures ok ==> fields == WithTimes(host, all, old(fields)) && marshaledSize == 24 && buffer.data == all[24..]
      ensures !ok ==> marshaledSize <= |all|
    {
      hide Flag, U32At;
      var x, high;
      ok, x := buffer.Read32(host, swap, all, 4);
      if !ok { return; }
      fields, marshaledSize := fields.(messageLength := x), marshaledSize + 4;
      ok, high := buffer.Read32(host, swap, all, 8);
      if !ok { return; }
      ok, x := buffer.Read32(host, swap, all, 12);
      if !ok { return; }
      fields, marshaledSize := fields.(sequence := SequenceNumber(ToSigned(high), x)), marshaledSize + 8;
      ok, x := buffer.Read32(host, swap, all, 16);
      if !ok { return; }
      fields, marshaledSize := fields.(source := fields.source.(sec := ToSigned(x))), marshaledSize + 4;
      ok, x := buffer.Read32(host, swap, all, 20);
      if !ok { return; }
      fields, marshaledSize := fields.(source := fields.source.(nanosec := x)), marshaledSize + 4;
    }

    /** The optional lifespan. */
    method InitLifespan(host: bool, swap: bool, buffer: MessageBlock, ghost all: seq<Octet>) returns (ok: bool)
      requires marshaledSize == 24 <= |all| && buffer.data == all[24..] && swap == Swaps(host, all)
      modifies this, buffer
      ensures var k := if old(fields).flags.lifespanDuration then 32 else 24;
              && (ok <==> k <= |all|)
              && (ok ==>
                    fields == WithLifespan(host, all, old(fields)) && marshaledSize == k && buffer.data == all[k..])
      ensures !ok ==> marshaledSize <= |all|
    {
      hide Flag, U32At;
      ok := true;
      if fields.flags.lifespanDuration {
        var x;
        ok, x := buffer.Read32(host, swap, all, 24);
        if !ok { return; }
        fields, marshaledSize := fields.(lifespan := fields.lifespan.(sec := ToSigned(x))), marshaledSize + 4;
        ok, x := buffer.Read32(host, swap, all, 28);
        if !ok { return; }
        fields, marshaledSize := fields.(lifespan := fields.lifespan.(nanosec := x)), marshaledSize + 4;
      }
    }

    /** Publication id and optional publisher id. */
    method InitIds(buffer: MessageBlock, ghost all: seq<Octet>) returns (ok: bool)
      requires marshaledSize <= |all| && buffer.data == all[marshaledSize..]
      modifies this, buffer
      ensures var k := old(marshaledSize) + if old(fields).flags.groupCoherent then 32 else 16;
              && (ok <==> k <= |all|)
              && (ok ==> && fields == WithIds(all, old(marshaledSize), old(fields))
                         && marshaledSize == k && buffer.data == all[k..])
      ensures !ok ==> marshaledSize <= |all|
    {
      hide GuidAt;
      var g;
      ok, g := buffer.ReadGuid(all, marshaledSize);
      if !ok { return; }
      fields, marshaledSize := fields.(publicationId := g), marshaledSize + 16;
      if fields.flags.groupCoherent {
        ok, g := buffer.ReadGuid(all, marshaledSize);
        if !ok { return; }
        fields, marshaledSize := fields.(publisherId := g), marshaledSize + 16;
      }
    }

    /** The optional filter entries. */
    method InitEntries(host: bool, swap: bool, buffer: MessageBlock, ghost all: seq<Octet>) returns (ok: bool)
      requires marshaledSize <= |all| && 2 < |all| && buffer.data == all[marshaledSize..] && swap == Swaps(host, all)
      modifies this, buffer
      ensures var k := old(marshaledSize);
              && (ok <==> HasEntries(host, all, k, old(fields)))
              && (ok ==> && fields == WithEntries(host, all, k, old(fields))
                         && marshaledSize
                            == k + (if old(fields).flags.contentFilter then 4 + 16 * U32At(host, all, k) else 0)
                         && buffer.data == all[marshaledSize..])
      ensures !ok ==> marshaledSize <= |all|
    {
      hide U32At, GuidsAt;
      ok := true;
      if fields.flags.contentFilter {
        var entries;
        ok, entries := buffer.ReadGuids(host, swap, all, marshaledSize);
        if !ok { return; }
        fields, marshaledSize := fields.(entries := entries), marshaledSize + 4 + 16 * |entries|;
      }
    }
  }
}
