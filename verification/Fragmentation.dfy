/** Splitting a sample into fragments and joining the fragments' headers, on header values and payload octets. */
module Fragmentation {
  import opened Basics
  import opened Wire
  import opened SampleHeaders

  datatype Sample = Sample(header: Header, payload: seq<Octet>)

  function Size(s: Sample): nat { MarshaledSize(s.header) + |s.payload| }

  /** Fields that the flags declare absent are empty, as after constructing a header from a buffer. */
  predicate Canonical(h: Header) {
    && (!h.flags.lifespanDuration ==> h.lifespan == Time(0, 0))
    && (!h.flags.groupCoherent ==> h.publisherId == GUID_UNKNOWN)
    && (!h.flags.contentFilter ==> h.entries == [])
    && |h.entries| < 0x1_0000_0000
  }

  /** The header describes its payload. */
  predicate Describes(s: Sample) {
    Canonical(s.header) && s.header.messageLength == |s.payload|
  }

  /** The smallest fragment size with which splitting makes progress: room for an entry or an octet of payload. */
  function MinFragment(h: Header): nat {
    FixedSize(h) + if !h.flags.contentFilter then 1 else if h.entries == [] then 4 + 1 else 4 + 16
  }

  /** The header does not fit and neither does an empty list of entries, so the room for entries is computed as a
      negative number. */
  predicate NoRoom(h: Header, size: nat) {
    size < MarshaledSize(h) && size < FixedSize(h) + 4
  }

  /** When split works: there is a payload, not everything fits, and the room for entries is not negative. */
  predicate Splittable(s: Sample, size: nat) {
    Describes(s) && s.payload != [] && size < Size(s) && !NoRoom(s.header, size)
  }

  /** How many filter entries fit beside the fixed part. */
  function FittingEntries(h: Header, size: nat): int { (size - FixedSize(h) - 4) / 16 }

  /** The two samples that split produces. */
  function Split(s: Sample, size: nat): (Sample, Sample)
    requires Splittable(s, size)
  {
    var h := s.header;
    if size < MarshaledSize(h) then
      var n := |h.entries| - FittingEntries(h, size);
      (Sample(h.(flags := h.flags.(moreFragments := true), messageLength := 0, entries := Reverse(h.entries[n..])), []),
       Sample(h.(flags := h.flags.(moreFragments := false, contentFilter := n > 0), entries := h.entries[..n]),
              s.payload))
    else
      var cut := size - MarshaledSize(h);
      (Sample(h.(flags := h.flags.(moreFragments := true), messageLength := cut), s.payload[..cut]),
       Sample(h.(flags := h.flags.(moreFragments := false, contentFilter := false),
                 messageLength := |s.payload| - cut, entries := []), s.payload[cut..]))
  }

  /** Joining two headers: the second one, lengthened, with the entries of the first appended in reverse. */
  function Join(first: Header, second: Header): Option<Header> {
    if !first.flags.moreFragments || first.sequence != second.sequence then None
    else
      var h := second.(messageLength := (second.messageLength + first.messageLength) % 0x1_0000_0000);
      Some(if first.flags.contentFilter
           then h.(flags := h.flags.(contentFilter := true), entries := h.entries + Reverse(first.entries)) else h)
  }

  // ---- One split ----

  /** Headers that may differ only in length, fragment and filter information. */
  predicate SameSample(h: Header, base: Header) {
    h.(messageLength := 0, entries := [], flags := h.flags.(moreFragments := false, contentFilter := false))
    == base.(messageLength := 0, entries := [], flags := base.flags.(moreFragments := false, contentFilter := false))
  }

  /** Splitting loses nothing, the head fits, and the tail is strictly smaller iff there is room for something. */
  lemma SplitParts(s: Sample, size: nat)
    requires Splittable(s, size)
    ensures var (head, tail) := Split(s, size);
            && head.payload + tail.payload == s.payload
            && multiset(head.header.entries) + multiset(tail.header.entries) == multiset(s.header.entries)
            && Describes(head) && Describes(tail) && tail.payload != []
            && Size(head) <= size
            && (|tail.header.entries| + |tail.payload| < |s.header.entries| + |s.payload|
                <==> MinFragment(s.header) <= size)
            && (MinFragment(s.header) <= size ==> MinFragment(tail.header) <= size)
  {
    hide Reverse;
    SplitContent(s, size);
    SplitSizes(s, size);
  }

  lemma SplitContent(s: Sample, size: nat)
    requires Splittable(s, size)
    ensures var (head, tail) := Split(s, size);
            && head.payload + tail.payload == s.payload
            && multiset(head.header.entries) + multiset(tail.header.entries) == multiset(s.header.entries)
            && Describes(head) && Describes(tail) && tail.payload != []
  {
    hide Reverse;
    var h := s.header;
    if size < MarshaledSize(h) {
      CutsEntries(h.entries, |h.entries| - FittingEntries(h, size));
    }
  }

  lemma SplitSizes(s: Sample, size: nat)
    requires Splittable(s, size)
    ensures var (head, tail) := Split(s, size);
            && Size(head) <= size
            && (|tail.header.entries| + |tail.payload| < |s.header.entries| + |s.payload|
                <==> MinFragment(s.header) <= size)
            && (MinFragment(s.header) <= size ==> MinFragment(tail.header) <= size)
  {
    hide Reverse;
  }

  /** Cutting the entry list in two loses none. */
  lemma CutsEntries(entries: seq<Guid>, n: nat)
    requires n <= |entries|
    ensures multiset(Reverse(entries[n..])) + multiset(entries[..n]) == multiset(entries)
    ensures |Reverse(entries[n..])| == |entries| - n
  {
    ReversePermutes(entries[n..]);
    assert entries == entries[..n] + entries[n..];
  }

  /** Only length, fragment and filter information changes, and a filtered sample stays filtered. */
  lemma SplitFlags(s: Sample, size: nat)
    requires Splittable(s, size)
    ensures var (head, tail) := Split(s, size);
            && SameSample(head.header, s.header) && SameSample(tail.header, s.header)
            && head.header.flags.moreFragments && !tail.header.flags.moreFragments
            && (head.header.flags.contentFilter || tail.header.flags.contentFilter <==> s.header.flags.contentFilter)
  {
    hide Split, SameSample;
    SplitSameSample(s, size);
    SplitFlagBits(s, size);
  }

  lemma SplitFlagBits(s: Sample, size: nat)
    requires Splittable(s, size)
    ensures var (head, tail) := Split(s, size);
            && head.header.flags.moreFragments && !tail.header.flags.moreFragments
            && (head.header.flags.contentFilter || tail.header.flags.contentFilter <==> s.header.flags.contentFilter)
  {
    hide Reverse;
  }

  lemma SplitSameSample(s: Sample, size: nat)
    requires Splittable(s, size)
    ensures SameSample(Split(s, size).0.header, s.header) && SameSample(Split(s, size).1.header, s.header)
  {
    hide Reverse;
  }

  /** Cut inside the entry list: join puts the entries back in order. */
  lemma CutEntriesThenJoin(s: Sample, size: nat)
    requires Splittable(s, size) && !s.header.flags.moreFragments && size < MarshaledSize(s.header)
    ensures Join(Split(s, size).0.header, Split(s, size).1.header) == Some(s.header)
  {
    hide Reverse;
    var h := s.header;
    RejoinsEntries(h.entries, |h.entries| - FittingEntries(h, size));
  }

  lemma RejoinsEntries(entries: seq<Guid>, n: nat)
    requires n <= |entries|
    ensures entries[..n] + Reverse(Reverse(entries[n..])) == entries
  {
    ReverseTwice(entries[n..]);
    assert entries == entries[..n] + entries[n..];
  }

  /** Cut inside the payload: join reverses the entries. */
  lemma CutPayloadThenJoin(s: Sample, size: nat)
    requires Splittable(s, size) && !s.header.flags.moreFragments && MarshaledSize(s.header) <= size
    ensures Join(Split(s, size).0.header, Split(s, size).1.header)
            == Some(s.header.(entries := Reverse(s.header.entries)))
  {
    hide Reverse;
    assert Reverse<Guid>([]) == [];
    assert [] + Reverse(s.header.entries) == Reverse(s.header.entries);
  }

  /** One split, then one join: the header is restored exactly iff the cut fell inside the entry list or the entries
      read the same backwards; otherwise only their order differs. */
  lemma SplitThenJoin(s: Sample, size: nat)
    requires Splittable(s, size) && !s.header.flags.moreFragments
    ensures var (head, tail) := Split(s, size);
            && Join(head.header, tail.header).Some?
            && (Join(head.header, tail.header).value == s.header
                <==> size < MarshaledSize(s.header) || Reverse(s.header.entries) == s.header.entries)
            && Join(head.header, tail.header).value.(entries := s.header.entries) == s.header
  {
    hide Split, Join;
    if size < MarshaledSize(s.header) { CutEntriesThenJoin(s, size); } else { CutPayloadThenJoin(s, size); }
  }

  /** A sample with two filter entries and two octets of payload. */
  function TwoEntries(a: Guid, b: Guid): Sample {
    Sample(Header(1, 0, Flags(false, false, false, false, false, true, false, false, false, false), 2,
                  SequenceNumber(0, 1), Time(0, 0), Time(0, 0), GUID_UNKNOWN, GUID_UNKNOWN, [a, b]), [7, 8])
  }

  /** The order is really lost: with room for one octet of payload, two different entries come back swapped. */
  lemma EntriesComeBackReversed(a: Guid, b: Guid)
    requires a != b
    ensures var s := TwoEntries(a, b);
            && Splittable(s, 77)
            && Join(Split(s, 77).0.header, Split(s, 77).1.header) == Some(s.header.(entries := [b, a]))
            && s.header.(entries := [b, a]) != s.header
  {
    var s := TwoEntries(a, b);
    CutPayloadThenJoin(s, 77);
    assert Reverse([a, b]) == [b, a];
    assert s.header.(entries := [b, a]).entries[0] != s.header.entries[0];
  }

  // ---- Splitting the tail again and again ----

  /** All fragments of a sample: split off the head while the rest does not fit. */
  function Fragments(s: Sample, size: nat): (f: seq<Sample>)
    requires Describes(s) && s.payload != [] && MinFragment(s.header) <= size
    ensures f != []
    decreases |s.header.entries| + |s.payload|
  {
    if Size(s) <= size then [s]
    else
      SplitParts(s, size);
      [Split(s, size).0] + Fragments(Split(s, size).1, size)
  }

  function Payloads(f: seq<Sample>): seq<Octet> {
    if f == [] then [] else f[0].payload + Payloads(f[1..])
  }

  function TotalLength(hs: seq<Header>): nat {
    if hs == [] then 0 else hs[0].messageLength + TotalLength(hs[1..])
  }

  function AllEntries(hs: seq<Header>): multiset<Guid> {
    if hs == [] then multiset{} else multiset(hs[0].entries) + AllEntries(hs[1..])
  }

  predicate AnyFilter(hs: seq<Header>) { exists i :: 0 <= i < |hs| && hs[i].flags.contentFilter }

  function Headers(f: seq<Sample>): (hs: seq<Header>)
    ensures |hs| == |f| && forall i :: 0 <= i < |f| ==> hs[i] == f[i].header
  {
    if f == [] then [] else [f[0].header] + Headers(f[1..])
  }

  /** A run of consecutive fragments of one sample: only the last may lack the more-fragments flag. */
  ghost predicate Run(hs: seq<Header>, base: Header) {
    && hs != []
    && (forall i :: 0 <= i < |hs| ==> SameSample(hs[i], base) && Canonical(hs[i]))
    && (forall i :: 0 <= i < |hs| - 1 ==> hs[i].flags.moreFragments)
  }

  /** Every fragment fits and the fragments are one run of the sample. */
  ghost predicate ShapedLike(f: seq<Sample>, s: Sample, size: nat) {
    var hs := Headers(f);
    && f != []
    && (forall i :: 0 <= i < |f| ==> Size(f[i]) <= size)
    && Run(hs, s.header)
    && hs[|hs| - 1].flags.moreFragments == (|f| == 1 && s.header.flags.moreFragments)
    && (AnyFilter(hs) <==> s.header.flags.contentFilter)
  }

  /** Together the fragments hold exactly the payload and the entries of the sample. */
  ghost predicate HoldsContent(f: seq<Sample>, s: Sample) {
    && Payloads(f) == s.payload && TotalLength(Headers(f)) == |s.payload|
    && AllEntries(Headers(f)) == multiset(s.header.entries)
  }

  lemma OneFragment(s: Sample, size: nat)
    requires Describes(s) && Size(s) <= size
    ensures ShapedLike([s], s, size) && HoldsContent([s], s)
  {
    var hs := Headers([s]);
    assert hs == [s.header] && hs[1..] == [];
    AnyFilterOne(s.header);
  }

  lemma ConsShape(head: Sample, tail: Sample, rest: seq<Sample>, s: Sample, size: nat)
    requires Canonical(head.header) && Size(head) <= size && ShapedLike(rest, tail, size)
    requires head.header.flags.moreFragments && !tail.header.flags.moreFragments
    requires SameSample(head.header, s.header) && SameSample(tail.header, s.header)
    requires head.header.flags.contentFilter || tail.header.flags.contentFilter <==> s.header.flags.contentFilter
    ensures ShapedLike([head] + rest, s, size)
  {
    hide SameSample, Canonical, Run, AnyFilter, Size;
    var f := [head] + rest;
    var hs, rs := Headers(f), Headers(rest);
    assert f[1..] == rest;
    assert hs == [head.header] + rs;
    assert hs[|hs| - 1] == rs[|rs| - 1];
    RunCons(head.header, rs, tail.header, s.header);
    AnyFilterConcat([head.header], rs);
    AnyFilterOne(head.header);
  }

  lemma ConsContent(head: Sample, tail: Sample, rest: seq<Sample>, s: Sample)
    requires head.header.messageLength == |head.payload| && HoldsContent(rest, tail)
    requires head.payload + tail.payload == s.payload
    requires multiset(head.header.entries) + multiset(tail.header.entries) == multiset(s.header.entries)
    ensures HoldsContent([head] + rest, s)
  {
    var f := [head] + rest;
    assert f[1..] == rest;
    assert Headers(f)[1..] == Headers(rest);
  }

  lemma RunCons(head: Header, rs: seq<Header>, tail: Header, base: Header)
    requires Run(rs, tail) && Canonical(head) && head.flags.moreFragments
    requires SameSample(head, base) && SameSample(tail, base)
    ensures Run([head] + rs, base)
  {
    hide SameSample, Canonical;
    SameSampleTransitive(rs, tail, base);
    var hs := [head] + rs;
    assert forall i :: 1 <= i < |hs| ==> hs[i] == rs[i - 1];
  }

  lemma AnyFilterOne(h: Header)
    ensures AnyFilter([h]) <==> h.flags.contentFilter
  {
    assert AnyFilter([h]) <==> [h][0].flags.contentFilter;
  }

  lemma SameSampleTransitive(hs: seq<Header>, a: Header, b: Header)
    requires SameSample(a, b) && forall i :: 0 <= i < |hs| ==> SameSample(hs[i], a)
    ensures forall i :: 0 <= i < |hs| ==> SameSample(hs[i], b)
  {
  }

  /** Fragmenting any describable sample with any workable size. */
  lemma {:induction false} FragmentsHoldSample(s: Sample, size: nat)
    requires Describes(s) && s.payload != [] && MinFragment(s.header) <= size
    ensures ShapedLike(Fragments(s, size), s, size) && HoldsContent(Fragments(s, size), s)
    decreases |s.header.entries| + |s.payload|
  {
    hide Split, ShapedLike, HoldsContent, SameSample;
    if Size(s) <= size {
      OneFragment(s, size);
    } else {
      SplitParts(s, size);
      SplitFlags(s, size);
      var (head, tail) := Split(s, size);
      FragmentsHoldSample(tail, size);
      ConsShape(head, tail, Fragments(tail, size), s, size);
      ConsContent(head, tail, Fragments(tail, size), s);
    }
  }

  // ---- Joining in any order ----

  /** A way to bracket the joins of consecutive fragments. */
  datatype Bracketing = One(header: Header) | Both(left: Bracketing, right: Bracketing)

  function Leaves(t: Bracketing): (hs: seq<Header>)
    ensures hs != []
  {
    match t
    case One(h) => [h]
    case Both(l, r) => Leaves(l) + Leaves(r)
  }

  function JoinAll(t: Bracketing): Option<Header> {
    match t
    case One(h) => Some(h)
    case Both(l, r) =>
      match (JoinAll(l), JoinAll(r))
      case (Some(a), Some(b)) => Join(a, b)
      case _ => None
  }

  /** h is what joining the run hs gives, up to the order of the entries. */
  ghost predicate JoinOf(h: Header, hs: seq<Header>, base: Header)
    requires hs != []
  {
    && SameSample(h, base)
    && h.messageLength == TotalLength(hs) % 0x1_0000_0000
    && h.flags.moreFragments == hs[|hs| - 1].flags.moreFragments
    && (h.flags.contentFilter <==> AnyFilter(hs))
    && multiset(h.entries) == AllEntries(hs)
    && (!h.flags.contentFilter ==> h.entries == [])
  }

  lemma {:induction false} TotalLengthConcat(a: seq<Header>, b: seq<Header>)
    ensures TotalLength(a + b) == TotalLength(a) + TotalLength(b)
    ensures AllEntries(a + b) == AllEntries(a) + AllEntries(b)
  {
    if a == [] {
      assert a + b == b;
    } else {
      assert (a + b)[1..] == a[1..] + b;
      TotalLengthConcat(a[1..], b);
    }
  }

  lemma AnyFilterConcat(a: seq<Header>, b: seq<Header>)
    ensures AnyFilter(a + b) <==> AnyFilter(a) || AnyFilter(b)
  {
    if AnyFilter(a) {
      var i :| 0 <= i < |a| && a[i].flags.contentFilter;
      assert (a + b)[i].flags.contentFilter;
    }
    if AnyFilter(b) {
      var i :| 0 <= i < |b| && b[i].flags.contentFilter;
      assert (a + b)[|a| + i].flags.contentFilter;
    }
  }

  lemma RunParts(a: seq<Header>, b: seq<Header>, base: Header)
    requires a != [] && b != [] && Run(a + b, base)
    ensures Run(a, base) && Run(b, base) && a[|a| - 1].flags.moreFragments
  {
    hide SameSample, Canonical;
    var c := a + b;
    assert forall i :: 0 <= i < |a| ==> c[i] == a[i];
    assert forall i :: 0 <= i < |b| ==> c[|a| + i] == b[i];
  }

  lemma JoinedEntries(first: seq<Guid>, second: seq<Guid>)
    ensures multiset(second + Reverse(first)) == multiset(first) + multiset(second)
    ensures first == [] ==> second + Reverse(first) == second
  {
    ReversePermutes(first);
  }

  /** Lengths added with wrap-around agree with the wrapped sum. */
  lemma LengthsWrap(a: nat, b: nat)
    ensures (b % 0x1_0000_0000 + a % 0x1_0000_0000) % 0x1_0000_0000 == (a + b) % 0x1_0000_0000
  {
  }

  lemma JoinTwo(h: Header, k: Header, a: seq<Header>, b: seq<Header>, base: Header)
    requires a != [] && b != [] && JoinOf(h, a, base) && JoinOf(k, b, base) && a[|a| - 1].flags.moreFragments
    ensures Join(h, k).Some? && JoinOf(Join(h, k).value, a + b, base)
  {
    hide AnyFilter, TotalLength, AllEntries, Reverse;
    TotalLengthConcat(a, b);
    AnyFilterConcat(a, b);
    JoinedEntries(h.entries, k.entries);
    assert (a + b)[|a + b| - 1] == b[|b| - 1];
    LengthsWrap(TotalLength(a), TotalLength(b));
  }

  lemma JoinOfOne(h: Header, base: Header)
    requires Run([h], base)
    ensures JoinOf(h, [h], base)
  {
    assert [h][0] == h && [h][1..] == [];
    AnyFilterOne(h);
  }

  /** However the joins are bracketed, a run of fragments joins to the same header up to the order of the entries. */
  lemma {:induction false} JoinAnyBracketing(t: Bracketing, base: Header)
    requires Run(Leaves(t), base)
    ensures JoinAll(t).Some? && JoinOf(JoinAll(t).value, Leaves(t), base)
  {
    match t
    case One(h) =>
      JoinOfOne(h, base);
    case Both(l, r) =>
      hide JoinOf, Run;
      RunParts(Leaves(l), Leaves(r), base);
      JoinAnyBracketing(l, base);
      JoinAnyBracketing(r, base);
      JoinTwo(JoinAll(l).value, JoinAll(r).value, Leaves(l), Leaves(r), base);
  }

  /** Fragmenting and reassembling in any bracketing restores payload, length, flags and the bag of filter entries. */
  lemma Reassembly(s: Sample, size: nat, t: Bracketing)
    requires Describes(s) && s.payload != [] && MinFragment(s.header) <= size && !s.header.flags.moreFragments
    requires Leaves(t) == Headers(Fragments(s, size))
    ensures Payloads(Fragments(s, size)) == s.payload
    ensures JoinAll(t).Some?
    ensures var h := JoinAll(t).value;
            h.(entries := s.header.entries) == s.header && multiset(h.entries) == multiset(s.header.entries)
  {
    hide Fragments, JoinAll, Leaves;
    FragmentsHoldSample(s, size);
    JoinAnyBracketing(t, s.header);
  }

  /** The first n fragments extend the first n - 1 by one. */
  lemma LeftPrefix(f: seq<Sample>, n: nat)
    requires 1 <= n <= |f|
    ensures Headers(f[..n]) == Headers(f[..n - 1]) + [f[n - 1].header]
    ensures Payloads(f[..n]) == Payloads(f[..n - 1]) + f[n - 1].payload
  {
    assert f[..n] == f[..n - 1] + [f[n - 1]];
    PayloadsAppend(f[..n - 1], f[n - 1]);
  }

  lemma {:induction false} PayloadsAppend(f: seq<Sample>, x: Sample)
    ensures Payloads(f + [x]) == Payloads(f) + x.payload
  {
    if f == [] {
      assert f + [x] == [x];
    } else {
      assert (f + [x])[1..] == f[1..] + [x];
      PayloadsAppend(f[1..], x);
    }
  }

  /** Any bracketing of the first n fragments joins. */
  lemma PrefixJoins(f: seq<Sample>, s: Sample, size: nat, t: Bracketing, n: nat)
    requires ShapedLike(f, s, size) && 1 <= n <= |f| && Leaves(t) == Headers(f[..n])
    ensures JoinAll(t).Some?
  {
    hide SameSample, Canonical;
    assert Run(Headers(f[..n]), s.header);
    JoinAnyBracketing(t, s.header);
  }
}
