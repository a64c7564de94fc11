/** split, join and their use end to end, on marshaled octets. */
module SampleSplitting {
  import opened Basics
  import opened Wire
  import opened SampleHeaders
  import opened HeaderCodec
  import opened Fragmentation
  import opened FragmentFill

  /** The header that the default constructor builds on a host. */
  function DefaultHeader(host: bool): Header {
    Header(0, 0, Flags(host, false, false, false, false, false, false, false, false, false), 0,
           SequenceNumber(0, 1), Time(0, 0), Time(0, 0), GUID_UNKNOWN, GUID_UNKNOWN, [])
  }

  /** The octets are the sample, marshaled on some host. */
  ghost predicate Carries(octets: seq<Octet>, s: Sample) {
    Canonical(s.header) && exists writer :: octets == Marshal(writer, s.header, s.payload)
  }

  ghost predicate CarriesAll(parts: seq<seq<Octet>>, f: seq<Sample>) {
    |parts| == |f| && forall i :: 0 <= i < |parts| ==> Carries(parts[i], f[i])
  }

  lemma CarriedSize(octets: seq<Octet>, s: Sample)
    requires Carries(octets, s)
    ensures |octets| == Size(s)
  {
    var writer :| octets == Marshal(writer, s.header, s.payload);
    MarshalLength(writer, s.header, s.payload);
  }

  /** Reads a header and leaves the payload. */
  method ReadHeader(host: bool, octets: seq<Octet>, ghost s: Sample) returns (fields: Header, payload: seq<Octet>)
    requires Carries(octets, s)
    ensures fields == s.header && payload == s.payload && |octets| - |payload| == MarshaledSize(s.header)
  {
    hide Marshal, Complete, Layout, HeaderLength;
    ghost var writer :| octets == Marshal(writer, s.header, s.payload);
    var block := new MessageBlock(octets);
    var hdr := new DataSampleHeader(DefaultHeader(host));
    hdr.Init(host, block);
    LayoutOfMarshal(writer, host, s.header, s.payload, DefaultHeader(host));
    MarshalIsComplete(writer, host, s.header, s.payload);
    MarshalLength(writer, s.header, s.payload);
    fields, payload := hdr.fields, block.data;
  }

  /** Marshals the entries (none, if null) after the header block mb and before its continuation. */
  method AddCfentries(host: bool, guids: Option<seq<Guid>>, mb: seq<Octet>, cont: seq<Octet>)
    returns (chain: seq<Octet>)
    requires |mb| > 2 && (guids.Some? ==> |guids.value| < 0x1_0000_0000)
    ensures chain == mb + EntriesOnto(host, Flag(mb[2], BYTE_ORDER_FLAG), if guids.Some? then guids.value else [], cont)
  {
    var swap := host != Flag(mb[2], BYTE_ORDER_FLAG);
    var optHdr: seq<Octet>;
    match guids {
      case Some(s) => optHdr := Put32(|s|, host, swap) + Guids(s);
      case None => optHdr := Put32(0, host, swap);
    }
    chain := mb + (optHdr + cont);
    assert optHdr + cont
           == EntriesOnto(host, Flag(mb[2], BYTE_ORDER_FLAG), if guids.Some? then guids.value else [], cont);
  }

  /** A header block followed by something is the header marshaled onto it. */
  lemma MarshalOntoAppends(host: bool, h: Header, tail: seq<Octet>)
    ensures MarshalOnto(host, h, []) + tail == MarshalOnto(host, h, tail)
    ensures |MarshalOnto(host, h, [])| == FixedSize(h)
    ensures Flag(MarshalOnto(host, h, [])[2], BYTE_ORDER_FLAG) == h.flags.byteOrder
  {
    hide Put32, Octet1, Octet2, ToUnsigned;
    FlagsRoundTrip(h.flags);
    assert Middle(host, h, []) + tail == Middle(host, h, tail);
  }

  /** A marshaled header block, its entries if any, and what follows. */
  method WriteSample(host: bool, h: Header, cont: seq<Octet>) returns (octets: seq<Octet>)
    requires Canonical(WithoutAbsent(h)) && |h.entries| < 0x1_0000_0000
    ensures Carries(octets, Sample(WithoutAbsent(h), cont))
  {
    hide MarshalOnto, EntriesOnto, Flag;
    var block := MarshalOnto(host, h, []);
    MarshalOntoAppends(host, h,
                       if h.flags.contentFilter then EntriesOnto(host, h.flags.byteOrder, h.entries, cont) else cont);
    if h.flags.contentFilter {
      octets := AddCfentries(host, Some(h.entries), block, cont);
    } else {
      octets := block + cont;
    }
    MarshalOntoAppends(host, WithoutAbsent(h), cont);
    EntriesNotInBlock(host, h);
    assert octets == Marshal(host, WithoutAbsent(h), cont);
  }

  /** Entries still held in memory are not written when the flag is off. */
  function WithoutAbsent(h: Header): Header {
    if h.flags.contentFilter then h else h.(entries := [])
  }

  lemma EntriesNotInBlock(host: bool, h: Header)
    ensures MarshalOnto(host, WithoutAbsent(h), []) == MarshalOnto(host, h, [])
  {
  }

  /** How split ends. Without a payload it looks for one past the end of the chain; with room for the whole sample it
      asks an absent tail for its length; with too little room the number of entries to cut wraps. */
  datatype SplitResult = Parts(head: seq<Octet>, tail: seq<Octet>) | NoPayload | NoTail | EntriesWrap

  /** Cuts a marshaled sample in two. */
  method SplitOctets(host: bool, orig: seq<Octet>, size: nat, ghost s: Sample) returns (r: SplitResult)
    requires Describes(s) && Carries(orig, s)
    ensures r.NoPayload? <==> s.payload == []
    ensures r.NoTail? <==> s.payload != [] && Size(s) <= size
    ensures r.EntriesWrap? <==> s.payload != [] && size < MarshaledSize(s.header) && size < FixedSize(s.header) + 4
    ensures r.Parts? <==> Splittable(s, size)
    ensures r.Parts? ==> Carries(r.head, Split(s, size).0) && Carries(r.tail, Split(s, size).1)
    ensures r.Parts? ==> if MarshaledSize(s.header) <= size then |r.head| == size
                         else |r.head| <= size < |r.head| + 16
  {
    if Splittable(s, size) { SplitFills(s, size); }
    hide Carries, Split, MarshaledSize;
    var hdr, payload := ReadHeader(host, orig, s);
    var hdrLen := |orig| - |payload|;
    if payload == [] { return NoPayload; }
    if size < hdrLen {
      if size < FixedSize(hdr) + 4 { return EntriesWrap; }
      var head, tail := CutEntries(host, hdr, payload, size);
      CarriedSize(head, Split(s, size).0);
      return Parts(head, tail);
    }
    if |payload| <= size - hdrLen { return NoTail; }
    var head, tail := CutPayload(host, hdr, payload, size, hdrLen);
    CarriedSize(head, Split(s, size).0);
    return Parts(head, tail);
  }

  /** No room for payload in the head: fragment the entries, taking them from the end of the list. */
  method CutEntries(host: bool, header: Header, payload: seq<Octet>, size: nat)
    returns (head: seq<Octet>, tail: seq<Octet>)
    requires Splittable(Sample(header, payload), size) && size < MarshaledSize(header)
    ensures var parts := Split(Sample(header, payload), size); Carries(head, parts.0) && Carries(tail, parts.1)
  {
    hide Carries, Reverse;
    var hdr := header.(flags := header.flags.(moreFragments := true), messageLength := 0);
    var avail := size - FixedSize(hdr) - 4;
    var first, rest := TakeEntries(hdr.entries, avail / 16);
    head := WriteSample(host, hdr.(entries := first), []);
    hdr := hdr.(flags := hdr.flags.(moreFragments := false, contentFilter := |rest| > 0),
                messageLength := |payload|, entries := rest);
    tail := WriteSample(host, hdr, payload);
  }

  /** The head takes the whole header and as much payload as fits. */
  method CutPayload(host: bool, header: Header, payload: seq<Octet>, size: nat, hdrLen: nat)
    returns (head: seq<Octet>, tail: seq<Octet>)
    requires Splittable(Sample(header, payload), size) && hdrLen == MarshaledSize(header) <= size
    ensures var parts := Split(Sample(header, payload), size); Carries(head, parts.0) && Carries(tail, parts.1)
  {
    hide Carries;
    var payloadHead, payloadTail := payload[..size - hdrLen], payload[size - hdrLen..];
    var hdr := header.(flags := header.flags.(moreFragments := true), messageLength := |payloadHead|);
    head := WriteSample(host, hdr, payloadHead);
    hdr := hdr.(flags := hdr.flags.(moreFragments := false, contentFilter := false), messageLength := |payloadTail|);
    tail := WriteSample(host, hdr, payloadTail);
  }

  /** Removes n entries from the end of the list, collecting them last first. */
  method TakeEntries(entries: seq<Guid>, n: nat) returns (taken: seq<Guid>, rest: seq<Guid>)
    requires n <= |entries|
    ensures taken == Reverse(entries[|entries| - n..]) && rest == entries[..|entries| - n]
  {
    taken, rest := [], entries;
    var i, x := 0, |entries|;
    while i < n
      invariant 0 <= i <= n && x == |entries| - i && rest == entries[..x]
      invariant taken == Reverse(entries[x..])
    {
      x := x - 1;
      taken := taken + [rest[x]];
      assert entries[x..] == [entries[x]] + entries[x + 1..];
      ReverseConcat([entries[x]], entries[x + 1..]);
      rest := rest[..x];
      i := i + 1;
    }
  }

  /** DataSampleHeader::join. */
  method JoinHeaders(first: Header, second: Header) returns (ok: bool, result: Header)
    ensures ok <==> first.flags.moreFragments && first.sequence == second.sequence
    ensures ok ==>
              result == second.(messageLength := (first.messageLength + second.messageLength) % 0x1_0000_0000,
                                flags := second.flags.(contentFilter := first.flags.contentFilter
                                                                       || second.flags.contentFilter),
                                entries := if first.flags.contentFilter then second.entries + Reverse(first.entries)
                                           else second.entries)
    ensures ok <==> Join(first, second).Some?
    ensures ok ==> result == Join(first, second).value
  {
    result := second;
    if !first.flags.moreFragments || first.sequence != second.sequence {
      return false, result;
    }
    result := result.(messageLength := (result.messageLength + first.messageLength) % 0x1_0000_0000);
    if first.flags.contentFilter {
      result := result.(flags := result.flags.(contentFilter := true));
      var i := |first.entries|;
      while i > 0
        invariant 0 <= i <= |first.entries|
        invariant result == second.(messageLength := (second.messageLength + first.messageLength) % 0x1_0000_0000,
                                    flags := second.flags.(contentFilter := true),
                                    entries := second.entries + Reverse(first.entries[i..]))
      {
        i := i - 1;
        assert first.entries[i..] == [first.entries[i]] + first.entries[i + 1..];
        ReverseConcat([first.entries[i]], first.entries[i + 1..]);
        result := result.(entries := result.entries + [first.entries[i]]);
      }
      assert first.entries[0..] == first.entries;
    }
    return true, result;
  }

  /** Splits the tail again and again until the rest fits. */
  method FragmentOctets(host: bool, orig: seq<Octet>, size: nat, ghost s: Sample) returns (parts: seq<seq<Octet>>)
    requires Describes(s) && s.payload != [] && MinFragment(s.header) <= size && Carries(orig, s)
    ensures CarriesAll(parts, Fragments(s, size))
  {
    hide Carries, Split;
    parts := [];
    var rest := orig;
    ghost var cur, done := s, [];
    CarriedSize(rest, cur);
    while |rest| > size
      invariant Describes(cur) && cur.payload != [] && MinFragment(cur.header) <= size
      invariant Carries(rest, cur) && |rest| == Size(cur)
      invariant done + Fragments(cur, size) == Fragments(s, size) && CarriesAll(parts, done)
      decreases |cur.header.entries| + |cur.payload|
    {
      SplitParts(cur, size);
      var r := SplitOctets(host, rest, size, cur);
      parts, rest := parts + [r.head], r.tail;
      done, cur := done + [Split(cur, size).0], Split(cur, size).1;
      CarriedSize(rest, cur);
    }
    parts := parts + [rest];
  }

  /** Reads the fragments and joins their headers from left to right. */
  method ReassembleOctets(host: bool, parts: seq<seq<Octet>>, ghost s: Sample, ghost size: nat)
    returns (ok: bool, header: Header, payload: seq<Octet>)
    requires Describes(s) && s.payload != [] && MinFragment(s.header) <= size && !s.header.flags.moreFragments
    requires CarriesAll(parts, Fragments(s, size))
    ensures ok && payload == s.payload
    ensures header.(entries := s.header.entries) == s.header && multiset(header.entries) == multiset(s.header.entries)
  {
    hide Carries, Fragments, ShapedLike, HoldsContent, Join;
    ghost var f := Fragments(s, size);
    FragmentsHoldSample(s, size);
    header, payload := ReadHeader(host, parts[0], f[0]);
    ok := true;
    ghost var t := One(header);
    LeftPrefix(f, 1);
    var i := 1;
    while i < |parts|
      invariant 1 <= i <= |parts|
      invariant ok && JoinAll(t) == Some(header) && Leaves(t) == Headers(f[..i])
      invariant payload == Payloads(f[..i])
    {
      var h, p := ReadHeader(host, parts[i], f[i]);
      LeftPrefix(f, i + 1);
      PrefixJoins(f, s, size, Both(t, One(h)), i + 1);
      ok, header := JoinHeaders(header, h);
      t := Both(t, One(h));
      payload := payload + p;
      i := i + 1;
    }
    assert f[..i] == f;
    Reassembly(s, size, t);
  }
}
