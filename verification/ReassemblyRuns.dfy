/** TransportReassembly as an object: chunks of many samples arrive interleaved, each kept under its own key. */
module ReassemblyRuns {
  import opened Basics
  import opened Wire
  import opened SampleHeaders
  import opened Fragmentation
  import opened TransportReassembly

  datatype FragKey = FragKey(publicationId: Guid, sequence: SequenceNumber)

  function KeyOf(r: FragRange): FragKey { FragKey(r.header.publicationId, r.header.sequence) }

  /** A chunk, and whether it is said to begin its sample. */
  datatype Arrival = Arrival(range: FragRange, first: bool)

  predicate Belongs(a: Arrival, publication: Guid, sequence: SequenceNumber) {
    a.range.header.publicationId == publication && a.range.header.sequence == sequence
  }

  /** The arrivals that belong to one sample, in order. */
  function Own(all: seq<Arrival>, publication: Guid, sequence: SequenceNumber): seq<Arrival> {
    if all == [] then []
    else
      var init, a := Own(all[..|all| - 1], publication, sequence), all[|all| - 1];
      if Belongs(a, publication, sequence) then init + [a] else init
  }

  /** The outcome of the last of the arrivals of one sample. */
  function Outcomes(own: seq<Arrival>): Outcome {
    if own == [] then Outcome(None, None)
    else Arrive(Outcomes(own[..|own| - 1]).pending, own[|own| - 1].range, own[|own| - 1].first)
  }

  lemma OwnAppend(all: seq<Arrival>, a: Arrival, publication: Guid, sequence: SequenceNumber)
    ensures Own(all + [a], publication, sequence)
            == Own(all, publication, sequence) + if Belongs(a, publication, sequence) then [a] else []
  {
    assert (all + [a])[..|all|] == all;
  }

  lemma OutcomesAppend(own: seq<Arrival>, a: Arrival)
    ensures Outcomes(own + [a]) == Arrive(Outcomes(own).pending, a.range, a.first)
  {
    hide Arrive;
    assert (own + [a])[..|own|] == own;
  }

  function RangesOf(own: seq<Arrival>): (rs: seq<FragRange>)
    ensures |rs| == |own| && forall i :: 0 <= i < |own| ==> rs[i] == own[i].range
  {
    if own == [] then [] else RangesOf(own[..|own| - 1]) + [own[|own| - 1].range]
  }

  /** Arrivals marked as first exactly when they begin with number t0. */
  lemma {:induction false} OutcomesAreArrivals(own: seq<Arrival>, t0: nat)
    requires forall i :: 0 <= i < |own| ==> own[i].first == (own[i].range.first == t0)
    ensures Outcomes(own) == Arrivals(RangesOf(own), t0)
    decreases |own|
  {
    hide Arrive;
    if own != [] {
      var init := own[..|own| - 1];
      OutcomesAreArrivals(init, t0);
      assert RangesOf(own)[..|own| - 1] == RangesOf(init);
    }
  }

  /** Keys are the same iff publication and sequence number are. */
  lemma KeysDiffer(a: FragRange, b: FragRange)
    ensures KeyOf(a) == KeyOf(b) <==>
            a.header.publicationId == b.header.publicationId && a.header.sequence == b.header.sequence
  {
  }

  class Reassembler {
    var fragments: map<FragKey, seq<FragRange>>
    var haveFirst: set<FragKey>
    ghost var all: seq<Arrival> // everything that has arrived

    /** What is kept for a sample is what its own arrivals alone would have left. */
    ghost predicate Valid()
      reads this
    {
      && haveFirst <= fragments.Keys
      && forall publication, sequence ::
           Kept(FragKey(publication, sequence)) == Outcomes(Own(all, publication, sequence)).pending
    }

    /** What is kept for a key. */
    function Kept(k: FragKey): Option<Pending>
      reads this
    {
      if k in fragments then Some(Pending(fragments[k], k in haveFirst)) else None
    }

    constructor ()
      ensures Valid() && all == []
    {
      fragments, haveFirst, all := map[], {}, [];
    }

    /** Takes one arrival; the sample is delivered as its own arrivals alone would have it. */
    method ReassembleI(r: FragRange, firstFrag: bool) returns (delivered: Option<FragRange>)
      requires Valid()
      modifies this
      ensures Valid() && all == old(all) + [Arrival(r, firstFrag)]
      ensures delivered == Outcomes(Own(all, r.header.publicationId, r.header.sequence)).delivered
    {
      hide Arrive, Own, Outcomes;
      ghost var was, a := all, Arrival(r, firstFrag);
      label before:
      delivered := Take(r, firstFrag);
      all := all + [a];
      assert forall k :: k != KeyOf(r) ==> Kept(k) == old@before(Kept(k));
      forall publication, sequence
        ensures Kept(FragKey(publication, sequence)) == Outcomes(Own(all, publication, sequence)).pending
      {
        OwnAppend(was, a, publication, sequence);
        OutcomesAppend(Own(was, publication, sequence), a);
        assert Own(was, publication, sequence) + [] == Own(was, publication, sequence);
      }
      OwnAppend(was, a, r.header.publicationId, r.header.sequence);
      OutcomesAppend(Own(was, r.header.publicationId, r.header.sequence), a);
    }

    /** One arrival for its key; the sample is delivered if it is now complete. Other keys are left alone. */
    method Take(r: FragRange, firstFrag: bool) returns (delivered: Option<FragRange>)
      requires haveFirst <= fragments.Keys
      modifies this`fragments, this`haveFirst
      ensures haveFirst <= fragments.Keys
      ensures Outcome(Kept(KeyOf(r)), delivered) == Arrive(old(Kept(KeyOf(r))), r, firstFrag)
      ensures forall k :: k != KeyOf(r) ==> Kept(k) == old(Kept(k))
    {
      hide Put;
      var key := KeyOf(r);
      if firstFrag {
        haveFirst := haveFirst + {key};
      }
      if key !in fragments {
        // since this is the first fragment we've seen, it can't possibly be done
        fragments := fragments[key := [r]];
        return None;
      }
      var ok, list := Insert(fragments[key], r);
      fragments := fragments[key := list];
      if !ok {
        return None;
      }
      if key in haveFirst && |list| == 1 && !list[0].header.flags.moreFragments {
        fragments, haveFirst := fragments - {key}, haveFirst - {key};
        return Some(list[0]);
      }
      return None;
    }

    /** Where fragments are numbered from 1. */
    method Reassemble(r: FragRange) returns (delivered: Option<FragRange>)
      requires Valid()
      modifies this
      ensures Valid() && all == old(all) + [Arrival(r, r.first == 1)]
      ensures delivered == Outcomes(Own(all, r.header.publicationId, r.header.sequence)).delivered
    {
      delivered := ReassembleI(r, r.first == 1);
    }
  }

  /** A whole run: every arrival of every sample, interleaved in any way. */
  method ReassembleAll(all: seq<Arrival>) returns (delivered: seq<Option<FragRange>>)
    ensures |delivered| == |all|
    ensures forall i :: 0 <= i < |all| ==> delivered[i] == DeliveredAt(all, i)
  {
    hide Own, Outcomes, Arrive;
    var reassembler := new Reassembler();
    delivered := [];
    var i := 0;
    while i < |all|
      invariant 0 <= i <= |all| && |delivered| == i && fresh(reassembler)
      invariant reassembler.Valid() && reassembler.all == all[..i]
      invariant forall j :: 0 <= j < i ==> delivered[j] == DeliveredAt(all, j)
    {
      assert all[..i + 1] == all[..i] + [Arrival(all[i].range, all[i].first)];
      var d := reassembler.ReassembleI(all[i].range, all[i].first);
      delivered := delivered + [d];
      i := i + 1;
    }
  }

  /** What arrival i delivers, told by the arrivals of its own sample up to it. */
  function DeliveredAt(all: seq<Arrival>, i: nat): Option<FragRange>
    requires i < |all|
  {
    Outcomes(Own(all[..i + 1], all[i].range.header.publicationId, all[i].range.header.sequence)).delivered
  }

  lemma {:induction false} OwnConcat(a: seq<Arrival>, b: seq<Arrival>, publication: Guid, sequence: SequenceNumber)
    ensures Own(a + b, publication, sequence) == Own(a, publication, sequence) + Own(b, publication, sequence)
    ensures Own(b, publication, sequence) == [] <==>
            forall j :: 0 <= j < |b| ==> !Belongs(b[j], publication, sequence)
    decreases |b|
  {
    if b == [] {
      assert a + b == a;
    } else {
      var init := b[..|b| - 1];
      OwnConcat(a, init, publication, sequence);
      assert a + b == (a + init) + [b[|b| - 1]] && b == init + [b[|b| - 1]];
      OwnAppend(a + init, b[|b| - 1], publication, sequence);
    }
  }

  /** The arrivals of a sample are its chunks, every fragment once, the first one marked. */
  ghost predicate ArrivesOnce(own: seq<Arrival>, s: Sample, size: nat, t0: nat)
    requires Describes(s) && s.payload != [] && MinFragment(s.header) <= size
  {
    && 1 < |own| && (forall i :: 0 <= i < |own| ==> own[i].first == (own[i].range.first == t0))
    && Chunks(RangesOf(own), Fragments(s, size), s.header, t0) && Once(RangesOf(own), Fragments(s, size), t0)
  }

  /** The arrivals of a sample up to arrival i are all of them iff none comes later. */
  lemma OwnUpTo(all: seq<Arrival>, i: nat, publication: Guid, sequence: SequenceNumber)
    requires i < |all| && Belongs(all[i], publication, sequence)
    ensures var own, now := Own(all, publication, sequence), Own(all[..i + 1], publication, sequence);
            && 1 <= |now| <= |own| && now == own[..|now|]
            && (|now| < |own| <==> exists j :: i < j < |all| && Belongs(all[j], publication, sequence))
  {
    hide Own, Belongs;
    var own, now, later := Own(all, publication, sequence), Own(all[..i + 1], publication, sequence), all[i + 1..];
    OwnConcat(all[..i + 1], later, publication, sequence);
    assert all == all[..i + 1] + later;
    OwnAppend(all[..i], all[i], publication, sequence);
    assert all[..i] + [all[i]] == all[..i + 1];
    assert forall j :: i < j < |all| ==> all[j] == later[j - i - 1];
    assert forall j :: 0 <= j < |later| ==> later[j] == all[i + 1 + j];
  }

  /** The n-th arrival of a sample delivers iff it is the last one. */
  lemma NthDelivers(own: seq<Arrival>, n: nat, s: Sample, size: nat, t0: nat)
    requires Describes(s) && s.payload != [] && MinFragment(s.header) <= size && !s.header.flags.moreFragments
    requires ArrivesOnce(own, s, size, t0) && 1 <= n <= |own|
    ensures var d := Outcomes(own[..n]).delivered;
            if n < |own| then d == None else d.Some? && IsSample(d.value, s)
  {
    hide Outcomes, Chunks, Once, IsSample, Fragments, Arrivals;
    OutcomesAreArrivals(own[..n], t0);
    var rs := RangesOf(own);
    assert RangesOf(own[..n]) == rs[..n] && rs[..|rs|] == rs;
    AnyOrder(rs, s, size, t0);
  }

  /** Whatever other samples arrive in between, of the arrivals of a sample exactly the last one delivers, and what it
      delivers is that sample. */
  lemma EachSampleDelivered(all: seq<Arrival>, i: nat, s: Sample, size: nat, t0: nat)
    requires Describes(s) && s.payload != [] && MinFragment(s.header) <= size && !s.header.flags.moreFragments
    requires ArrivesOnce(Own(all, s.header.publicationId, s.header.sequence), s, size, t0)
    requires i < |all| && all[i].range.header.publicationId == s.header.publicationId
    requires all[i].range.header.sequence == s.header.sequence
    ensures if exists j :: i < j < |all| && all[j].range.header.publicationId == s.header.publicationId
                           && all[j].range.header.sequence == s.header.sequence
            then DeliveredAt(all, i) == None
            else DeliveredAt(all, i).Some? && IsSample(DeliveredAt(all, i).value, s)
  {
    hide Own, Outcomes, ArrivesOnce, IsSample;
    var publication, sequence := s.header.publicationId, s.header.sequence;
    var own, now := Own(all, publication, sequence), Own(all[..i + 1], publication, sequence);
    OwnUpTo(all, i, publication, sequence);
    NthDelivers(own, |now|, s, size, t0);
  }
}
