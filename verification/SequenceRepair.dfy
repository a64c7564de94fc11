/** DataWriterImpl: numbering of messages and the sequence-repair flag, over every run of writes, control messages,
    readers joining and leaving, and resends to durable readers. Each public operation is one step under the lock. */
module SequenceRepair {
  import opened Basics

  type ReaderId = nat

  /** What happened, in order. Number 0 stands for SEQUENCENUMBER_UNKNOWN. */
  datatype Event =
    | Joined(r: ReaderId)
    | Left(r: ReaderId)
    | Resent(r: ReaderId, numbers: seq<nat>)
    | Numbered(number: nat, repair: bool, to: set<ReaderId>) // a message addressed to the readers `to`

  /** Readers that have joined and not left. */
  ghost function Current(trace: seq<Event>): set<ReaderId> {
    if trace == [] then {}
    else
      var before := Current(trace[..|trace| - 1]);
      match trace[|trace| - 1]
      case Joined(r) => before + {r}
      case Left(r) => before - {r}
      case _ => before
  }

  ghost function MessageCount(trace: seq<Event>): nat {
    if trace == [] then 0
    else MessageCount(trace[..|trace| - 1]) + if trace[|trace| - 1].Numbered? then 1 else 0
  }

  ghost function Highest(numbers: seq<nat>): nat {
    if numbers == [] then 0 else Max(Highest(numbers[..|numbers| - 1]), numbers[|numbers| - 1])
  }

  /** The highest number addressed to reader r since it joined, 0 if none. */
  ghost function LastAddressed(trace: seq<Event>, r: ReaderId): nat {
    if trace == [] then 0
    else
      var before := LastAddressed(trace[..|trace| - 1], r);
      match trace[|trace| - 1]
      case Joined(q) => if q == r then 0 else before
      case Left(q) => before
      case Resent(q, numbers) => if q == r then Max(before, Highest(numbers)) else before
      case Numbered(n, _, to) => if r in to then n else before
  }

  /** Some current reader was not addressed by number n last. */
  ghost predicate Uneven(trace: seq<Event>, n: int) {
    exists r :: r in Current(trace) && LastAddressed(trace, r) != n
  }

  /** The next message is numbered consecutively, goes to current readers only, and carries the repair flag exactly
      when some current reader was not addressed by the message numbered just before it. */
  ghost predicate SoundMessage(trace: seq<Event>, m: Event)
    requires m.Numbered?
  {
    && m.number == MessageCount(trace) + 1
    && m.to <= Current(trace)
    && (m.repair <==> Uneven(trace, m.number - 1))
  }

  /** Every message of the run is sound, and only numbers already used are ever resent. */
  ghost predicate Sound(trace: seq<Event>) {
    trace != [] ==>
      var before, last := trace[..|trace| - 1], trace[|trace| - 1];
      && Sound(before)
      && (last.Numbered? ==> SoundMessage(before, last))
      && (last.Resent? ==> last.r in Current(before) && Highest(last.numbers) <= MessageCount(before))
  }

  /** Soundness speaks of every message of the run, not only of the last one. */
  lemma {:induction false} SoundAt(trace: seq<Event>, i: nat)
    requires Sound(trace) && i < |trace| && trace[i].Numbered?
    ensures SoundMessage(trace[..i], trace[i])
  {
    if i < |trace| - 1 {
      var before := trace[..|trace| - 1];
      SoundAt(before, i);
      assert before[..i] == trace[..i];
    }
  }

  lemma {:induction false} AddressedAlready(trace: seq<Event>, r: ReaderId)
    requires Sound(trace)
    ensures LastAddressed(trace, r) <= MessageCount(trace)
  {
    if trace != [] { AddressedAlready(trace[..|trace| - 1], r); }
  }

  /** Numbers are consecutive: message i carries one more than the count of messages before it. It carries the flag iff
      it leaves a gap for some current reader, whether it is addressed to that reader or not. */
  lemma GapIffRepair(trace: seq<Event>, i: nat)
    requires Sound(trace) && i < |trace| && trace[i].Numbered?
    ensures trace[i].number == MessageCount(trace[..i]) + 1 && trace[i].to <= Current(trace[..i])
    ensures trace[i].repair <==>
            exists r :: r in Current(trace[..i]) && LastAddressed(trace[..i], r) + 1 < trace[i].number
  {
    SoundAt(trace, i);
    SoundPrefix(trace, i);
    forall r ensures LastAddressed(trace[..i], r) < trace[i].number { AddressedAlready(trace[..i], r); }
  }

  lemma {:induction false} SoundPrefix(trace: seq<Event>, i: nat)
    requires Sound(trace) && i <= |trace|
    ensures Sound(trace[..i])
  {
    if i < |trace| {
      SoundPrefix(trace[..|trace| - 1], i);
      assert trace[..|trace| - 1][..i] == trace[..i];
    } else {
      assert trace[..i] == trace;
    }
  }

  // ---- The same, told by the events ----

  /** The last of these events about r is that it joined. */
  ghost predicate JoinedLast(trace: seq<Event>, r: ReaderId) {
    exists i :: 0 <= i < |trace| && trace[i] == Joined(r) && forall j :: i < j < |trace| ==> trace[j] != Left(r)
  }

  lemma {:induction false} CurrentIff(trace: seq<Event>, r: ReaderId)
    ensures r in Current(trace) <==> JoinedLast(trace, r)
  {
    if trace != [] {
      var init, last := trace[..|trace| - 1], trace[|trace| - 1];
      CurrentIff(init, r);
      if last == Joined(r) {
        assert trace[|trace| - 1] == Joined(r);
      } else if last != Left(r) && JoinedLast(init, r) {
        var i :| 0 <= i < |init| && init[i] == Joined(r) && forall j :: i < j < |init| ==> init[j] != Left(r);
        assert trace[i] == Joined(r) && forall j :: i < j < |init| ==> trace[j] == init[j];
      }
      if JoinedLast(trace, r) && last != Joined(r) {
        var i :| 0 <= i < |trace| && trace[i] == Joined(r) && forall j :: i < j < |trace| ==> trace[j] != Left(r);
        assert init[i] == Joined(r) && forall j :: i < j < |init| ==> init[j] == trace[j];
      }
    }
  }

  /** Event e brings number n to reader r. */
  ghost predicate Brings(e: Event, r: ReaderId, n: nat) {
    (e.Numbered? && e.number == n && r in e.to) || (e.Resent? && e.r == r && n in e.numbers)
  }

  /** Reader r was sent number n, as a message or again, since it last joined. */
  ghost predicate Got(trace: seq<Event>, r: ReaderId, n: nat) {
    exists i :: 0 <= i < |trace| && Brings(trace[i], r, n) && forall j :: i < j < |trace| ==> trace[j] != Joined(r)
  }

  lemma {:induction false} HighestIs(numbers: seq<nat>)
    ensures forall n :: n in numbers ==> n <= Highest(numbers)
    ensures numbers != [] ==> Highest(numbers) in numbers
  {
    if numbers != [] {
      var init := numbers[..|numbers| - 1];
      HighestIs(init);
      assert numbers == init + [numbers[|numbers| - 1]];
    }
  }

  lemma GotStep(init: seq<Event>, e: Event, r: ReaderId, n: nat)
    ensures Got(init + [e], r, n) <==> Brings(e, r, n) || (e != Joined(r) && Got(init, r, n))
  {
    var trace := init + [e];
    assert trace[|init|] == e && forall j :: 0 <= j < |init| ==> trace[j] == init[j];
    if e != Joined(r) && Got(init, r, n) {
      var i :| 0 <= i < |init| && Brings(init[i], r, n) && forall j :: i < j < |init| ==> init[j] != Joined(r);
      assert Brings(trace[i], r, n);
    }
  }

  /** LastAddressed is the highest number the reader got. */
  lemma {:induction false} HighestGot(trace: seq<Event>, r: ReaderId, n: nat)
    requires Sound(trace)
    ensures Got(trace, r, n) ==> n <= LastAddressed(trace, r)
    ensures n == LastAddressed(trace, r) && 0 < n ==> Got(trace, r, n)
  {
    if trace != [] {
      var init, e := trace[..|trace| - 1], trace[|trace| - 1];
      assert trace == init + [e];
      GotStep(init, e, r, n);
      HighestGot(init, r, n);
      AddressedAlready(init, r);
      if e.Resent? { HighestIs(e.numbers); }
    }
  }

  ghost predicate Missed(trace: seq<Event>, n: nat) {
    exists r :: r in Current(trace) && !Got(trace, r, n)
  }

  lemma MissedIff(trace: seq<Event>, n: nat)
    requires Sound(trace) && n == MessageCount(trace)
    ensures Uneven(trace, n) <==> 0 < n && Missed(trace, n)
  {
    forall r ensures LastAddressed(trace, r) == n <==> n == 0 || Got(trace, r, n) {
      AddressedAlready(trace, r);
      HighestGot(trace, r, n);
    }
    hide Got, Sound;
    if r :| r in Current(trace) && LastAddressed(trace, r) != n { assert !Got(trace, r, n); }
    if 0 < n && Missed(trace, n) {
      var r :| r in Current(trace) && !Got(trace, r, n);
      assert LastAddressed(trace, r) != n;
    }
  }

  /** A message carries the repair flag iff it is not the first and some current reader did not get the number before
      it. */
  lemma RepairIffMissed(trace: seq<Event>, i: nat)
    requires Sound(trace) && i < |trace| && trace[i].Numbered?
    ensures trace[i].repair <==> 1 < trace[i].number && Missed(trace[..i], trace[i].number - 1)
  {
    SoundAt(trace, i);
    SoundPrefix(trace, i);
    MissedIff(trace[..i], trace[i].number - 1);
  }

  /** A reader that joins a writer which has sent something is made up for: the next message carries the flag, unless
      what was sent last is sent to the reader again. */
  lemma JoinerNeedsRepair(trace: seq<Event>, k: nat, i: nat, r: ReaderId)
    requires Sound(trace) && k < i < |trace| && trace[k] == Joined(r) && trace[i].Numbered?
    requires forall j :: k < j < i ==> !trace[j].Numbered? && trace[j] != Left(r) && trace[j] != Joined(r)
    requires forall j :: k < j < i && trace[j].Resent? && trace[j].r == r ==> trace[i].number - 1 !in trace[j].numbers
    ensures 1 < trace[i].number ==> trace[i].repair
  {
    RepairIffMissed(trace, i);
    SoundAt(trace, i);
    var before, n := trace[..i], trace[i].number - 1;
    CurrentIff(before, r);
    assert before[k] == Joined(r);
    if Got(before, r, n) {
      var m :| 0 <= m < |before| && Brings(before[m], r, n) && forall j :: m < j < |before| ==> before[j] != Joined(r);
      assert k <= m;
    }
  }

  /** Some reader does not expect n. */
  ghost predicate Behind(info: map<ReaderId, nat>, n: nat) {
    exists r :: r in info && info[r] != n
  }

  lemma Append(trace: seq<Event>, e: Event)
    ensures (trace + [e])[..|trace + [e]| - 1] == trace
  {
  }

  class DataWriter {
    var sequenceNumber: nat
    var readerInfo: map<ReaderId, nat> // each reader's expected_sequence_
    ghost var trace: seq<Event>

    ghost predicate Valid()
      reads this
    {
      && Sound(trace)
      && sequenceNumber == MessageCount(trace)
      && readerInfo.Keys == Current(trace)
      && forall r :: r in readerInfo ==> readerInfo[r] == LastAddressed(trace, r)
    }

    constructor ()
      ensures Valid() && trace == []
    {
      sequenceNumber, readerInfo, trace := 0, map[], [];
    }

    /** add_association; inserting a reader that is already there changes nothing. */
    method AddReader(r: ReaderId)
      requires Valid()
      modifies this
      ensures Valid()
      ensures trace == if r in old(readerInfo) then old(trace) else old(trace) + [Joined(r)]
    {
      if r !in readerInfo {
        Append(trace, Joined(r));
        readerInfo := readerInfo[r := 0];
        trace := trace + [Joined(r)];
      }
    }

    /** remove_associations for one reader. */
    method RemoveReader(r: ReaderId)
      requires Valid()
      modifies this
      ensures Valid() && trace == old(trace) + [Left(r)]
    {
      Append(trace, Left(r));
      readerInfo := readerInfo - {r};
      trace := trace + [Left(r)];
    }

    method NeedSequenceRepair() returns (repair: bool)
      ensures repair <==> Behind(readerInfo, sequenceNumber)
    {
      var rest := readerInfo.Keys;
      while rest != {}
        invariant rest <= readerInfo.Keys
        invariant forall r :: r in readerInfo.Keys - rest ==> readerInfo[r] == sequenceNumber
        decreases rest
      {
        var r :| r in rest;
        if readerInfo[r] != sequenceNumber { return true; }
        rest := rest - {r};
      }
      return false;
    }

    /** The numbering part of create_sample_data_message and of create_control_message. */
    method TakeNumber() returns (repair: bool)
      modifies this`sequenceNumber
      ensures sequenceNumber == old(sequenceNumber) + 1
      ensures repair <==> Behind(readerInfo, old(sequenceNumber))
    {
      repair := NeedSequenceRepair();
      sequenceNumber := sequenceNumber + 1;
    }

    /** Every reader that is not excluded now expects the current number. */
    method TrackSequenceNumber(excluded: set<ReaderId>)
      modifies this`readerInfo
      ensures readerInfo.Keys == old(readerInfo.Keys)
      ensures forall r :: r in readerInfo ==>
                readerInfo[r] == if r in excluded then old(readerInfo)[r] else sequenceNumber
    {
      var rest := readerInfo.Keys;
      while rest != {}
        invariant rest <= readerInfo.Keys == old(readerInfo.Keys)
        invariant forall r :: r in readerInfo ==>
                    readerInfo[r] == if r in rest || r in excluded then old(readerInfo)[r] else sequenceNumber
        decreases rest
      {
        var r :| r in rest;
        if r !in excluded {
          readerInfo := readerInfo[r := sequenceNumber];
        }
        rest := rest - {r};
      }
    }

    /** write: the message is numbered before it is enqueued, so a failed enqueue uses up the number and addresses
        nobody. */
    method Write(filterOut: seq<ReaderId>, enqueued: bool) returns (number: nat, repair: bool)
      requires Valid()
      modifies this
      ensures Valid()
      ensures trace == old(trace) + [Numbered(number, repair,
                         if enqueued then set r | r in old(readerInfo) && r !in filterOut else {})]
    {
      repair := TakeNumber();
      number := sequenceNumber;
      ghost var to := if enqueued then set r | r in readerInfo && r !in filterOut else {};
      if enqueued {
        TrackSequenceNumber(set r | r in filterOut);
      }
      Append(trace, Numbered(number, repair, to));
      trace := trace + [Numbered(number, repair, to)];
    }

    /** create_control_message: instance registration, dispose, unregister and ack requests take a number and address
        every reader; other control messages take none. */
    method Control(numbered: bool) returns (number: nat, repair: bool)
      requires Valid()
      modifies this
      ensures Valid()
      ensures !numbered ==> number == 0 && !repair && trace == old(trace)
      ensures numbered ==> trace == old(trace) + [Numbered(number, repair, old(readerInfo).Keys)]
    {
      number, repair := 0, false;
      if numbered {
        repair := TakeNumber();
        number := sequenceNumber;
        TrackSequenceNumber({});
        Append(trace, Numbered(number, repair, readerInfo.Keys));
        trace := trace + [Numbered(number, repair, readerInfo.Keys)];
      }
    }

    /** association_complete_i for a durable reader: the expected number rises to the highest one resent. */
    method Resend(r: ReaderId, numbers: seq<nat>)
      requires Valid() && r in readerInfo && Highest(numbers) <= sequenceNumber
      modifies this
      ensures Valid() && trace == old(trace) + [Resent(r, numbers)]
    {
      var expected, i := readerInfo[r], 0;
      while i < |numbers|
        invariant 0 <= i <= |numbers| && expected == Max(readerInfo[r], Highest(numbers[..i]))
      {
        assert numbers[..i + 1][..i] == numbers[..i];
        if numbers[i] > expected { expected := numbers[i]; }
        i := i + 1;
      }
      assert numbers[..i] == numbers;
      Append(trace, Resent(r, numbers));
      readerInfo := readerInfo[r := expected];
      trace := trace + [Resent(r, numbers)];
    }
  }
}
