/** DataReaderImpl_T::finish_store_instance_data: resource limits, history depth, and the rejected and lost counts. */
module SampleCache {
  import opened Basics

  datatype Sample = Sample(data: int, read: bool)

  const LENGTH_UNLIMITED := -1

  /** max_samples_per_instance, max_samples and the history depth. */
  datatype Limits = Limits(perInstance: int, total: int, depth: int)

  predicate ValidLimits(q: Limits) {
    && (q.perInstance == LENGTH_UNLIMITED || 1 <= q.perInstance)
    && (q.total == LENGTH_UNLIMITED || 1 <= q.total)
    && 1 <= q.depth
  }

  // ---- Counting over all instances ----

  function Sum(ins: seq<seq<Sample>>, f: seq<Sample> -> nat): nat {
    if ins == [] then 0 else f(ins[0]) + Sum(ins[1..], f)
  }

  lemma {:induction false} SumUpdate(ins: seq<seq<Sample>>, i: nat, l: seq<Sample>, f: seq<Sample> -> nat)
    requires i < |ins|
    ensures Sum(ins[i := l], f) == Sum(ins, f) - f(ins[i]) + f(l)
  {
    if i == 0 {
      assert ins[0 := l][1..] == ins[1..];
    } else {
      assert ins[i := l][1..] == ins[1..][i - 1 := l];
      SumUpdate(ins[1..], i - 1, l, f);
    }
  }

  function Length(l: seq<Sample>): nat { |l| }

  function Unread(l: seq<Sample>): nat {
    if l == [] then 0 else (if l[0].read then 0 else 1) + Unread(l[1..])
  }

  function TotalSamples(ins: seq<seq<Sample>>): nat { Sum(ins, Length) }

  function TotalUnread(ins: seq<seq<Sample>>): nat { Sum(ins, Unread) }

  lemma UnreadUpdate(ins: seq<seq<Sample>>, i: nat, l: seq<Sample>)
    requires i < |ins|
    ensures TotalUnread(ins[i := l]) == TotalUnread(ins) - Unread(ins[i]) + Unread(l)
  {
    SumUpdate(ins, i, l, Unread);
  }

  lemma {:induction false} UnreadConcat(a: seq<Sample>, b: seq<Sample>)
    ensures Unread(a + b) == Unread(a) + Unread(b)
  {
    if a == [] {
      assert a + b == b;
    } else {
      assert (a + b)[1..] == a[1..] + b;
      UnreadConcat(a[1..], b);
    }
  }

  function InsertAt(l: seq<Sample>, at: nat, x: Sample): seq<Sample>
    requires at <= |l|
  {
    l[..at] + [x] + l[at..]
  }

  lemma {:induction false} UnreadInsert(l: seq<Sample>, at: nat, x: Sample)
    requires at <= |l|
    ensures Unread(InsertAt(l, at, x)) == Unread(l) + Unread([x])
  {
    hide Unread;
    UnreadConcat(l[..at] + [x], l[at..]);
    UnreadConcat(l[..at], [x]);
    UnreadConcat(l[..at], l[at..]);
    assert l == l[..at] + l[at..];
  }

  lemma {:induction false} UnreadReplace(l: seq<Sample>, k: nat, x: Sample)
    requires k < |l|
    ensures Unread(l[k := x]) == Unread(l) - Unread([l[k]]) + Unread([x])
    ensures Unread(l[..k] + l[k + 1..]) == Unread(l) - Unread([l[k]])
  {
    hide Unread;
    assert l == l[..k] + ([l[k]] + l[k + 1..]) && l[k := x] == l[..k] + ([x] + l[k + 1..]);
    UnreadConcat(l[..k], [l[k]] + l[k + 1..]);
    UnreadConcat(l[..k], [x] + l[k + 1..]);
    UnreadConcat(l[..k], l[k + 1..]);
    UnreadConcat([x], l[k + 1..]);
    UnreadConcat([l[k]], l[k + 1..]);
  }

  // ---- What storing does ----

  predicate InstanceFull(q: Limits, l: seq<Sample>) {
    q.perInstance != LENGTH_UNLIMITED && |l| >= q.perInstance
  }

  predicate LimitHit(q: Limits, ins: seq<seq<Sample>>, i: nat)
    requires i < |ins|
  {
    InstanceFull(q, ins[i]) || (q.total != LENGTH_UNLIMITED && TotalSamples(ins) >= q.total)
  }

  /** max_samples is hit and the instance has no oldest sample to look at. */
  predicate NoHead(q: Limits, ins: seq<seq<Sample>>, i: nat)
    requires i < |ins|
  {
    q.total != LENGTH_UNLIMITED && TotalSamples(ins) >= q.total && ins[i] == []
  }

  /** A data sample is refused when a limit is hit and the oldest sample has not been read. */
  predicate Refused(q: Limits, ins: seq<seq<Sample>>, i: nat)
    requires i < |ins|
  {
    LimitHit(q, ins, i) && ins[i] != [] && !ins[i][0].read
  }

  /** The instance after room has been made. */
  function Room(q: Limits, ins: seq<seq<Sample>>, i: nat): seq<Sample>
    requires i < |ins|
  {
    if LimitHit(q, ins, i) && ins[i] != [] then ins[i][1..] else ins[i]
  }

  function Trimmed(q: Limits, l: seq<Sample>): seq<Sample>
    requires ValidLimits(q)
  {
    if |l| > q.depth then l[1..] else l
  }

  /** Depth trimming loses an unread sample. */
  predicate LosesOne(q: Limits, l: seq<Sample>)
    requires ValidLimits(q)
  {
    |l| > q.depth && !l[0].read
  }

  /** Storing a data sample never makes the instance longer than it was, or than both its limits allow, and never makes
      the cache larger than it was, or than max_samples allows. */
  lemma StoredWithinLimits(q: Limits, ins: seq<seq<Sample>>, i: nat, at: nat, x: Sample)
    requires ValidLimits(q) && i < |ins| && at <= |Room(q, ins, i)| && !NoHead(q, ins, i)
    ensures var l := Trimmed(q, InsertAt(Room(q, ins, i), at, x));
            && |l| <= Max(|ins[i]|, q.depth)
            && (q.perInstance != LENGTH_UNLIMITED ==> |l| <= Max(|ins[i]|, q.perInstance))
            && (q.total != LENGTH_UNLIMITED ==> TotalSamples(ins[i := l]) <= Max(TotalSamples(ins), q.total))
  {
    SumUpdate(ins, i, Trimmed(q, InsertAt(Room(q, ins, i), at, x)), Length);
  }

  /** All samples, instance by instance. */
  function AllSamples(ins: seq<seq<Sample>>): seq<Sample> {
    if ins == [] then [] else ins[0] + AllSamples(ins[1..])
  }

  lemma {:induction false} TotalIsAll(ins: seq<seq<Sample>>)
    ensures TotalSamples(ins) == |AllSamples(ins)|
  {
    if ins != [] { TotalIsAll(ins[1..]); }
  }

  /** max_samples_per_instance or max_samples leaves no room for one more, in plain terms. */
  predicate Full(q: Limits, ins: seq<seq<Sample>>, i: nat)
    requires i < |ins|
  {
    (q.perInstance != -1 && q.perInstance <= |ins[i]|) || (q.total != -1 && q.total <= |AllSamples(ins)|)
  }

  /** A full cache refuses a sample iff the oldest of its instance is unread, and otherwise gives up exactly that. */
  lemma FullPlainly(q: Limits, ins: seq<seq<Sample>>, i: nat)
    requires ValidLimits(q) && i < |ins|
    ensures NoHead(q, ins, i) <==> Full(q, ins, i) && ins[i] == []
    ensures Refused(q, ins, i) <==> Full(q, ins, i) && ins[i] != [] && !ins[i][0].read
    ensures Room(q, ins, i) == if Full(q, ins, i) && ins[i] != [] then ins[i][1..] else ins[i]
  {
    TotalIsAll(ins);
  }

  /** How storing a data sample ends: NullHead is the read through the pointer to an oldest sample that is not there. */
  datatype StoreResult = Stored | Rejected | NullHead

  class DataReader {
    const limits: Limits
    var instances: seq<seq<Sample>> // the received samples of every instance, oldest first
    var rejected: nat               // sample_rejected_status_.total_count
    var lost: nat                   // sample_lost_status_.total_count
    ghost var arrived: nat          // samples handed to the cache
    ghost var seen: nat             // samples the application has read or taken

    /** Conservation: every sample that arrived is still there unread, was seen, was counted lost or was counted
        rejected. */
    ghost predicate Valid()
      reads this
    {
      ValidLimits(limits) && arrived == TotalUnread(instances) + seen + lost + rejected
    }

    constructor (limits: Limits, n: nat)
      requires ValidLimits(limits)
      ensures Valid() && this.limits == limits && instances == seq(n, i => []) && rejected == lost == 0
    {
      this.limits := limits;
      instances := seq(n, i => []);
      rejected, lost, arrived, seen := 0, 0, 0, 0;
      new;
      NothingUnread(n);
    }

    /** The sample count over all instances. */
    method CountSamples() returns (total: nat)
      ensures total == TotalSamples(instances)
    {
      total := 0;
      var k := 0;
      assert instances[0..] == instances;
      while k < |instances|
        invariant 0 <= k <= |instances| && total + Sum(instances[k..], Length) == TotalSamples(instances)
      {
        assert instances[k..][1..] == instances[k + 1..];
        total := total + |instances[k]|;
        k := k + 1;
      }
    }

    /** When a limit is hit, refuses if the oldest sample is unread and otherwise discards it. */
    method MakeRoom(i: nat) returns (r: StoreResult, room: seq<Sample>)
      requires ValidLimits(limits) && i < |instances|
      ensures r.NullHead? <==> NoHead(limits, instances, i)
      ensures r.Rejected? <==> Refused(limits, instances, i)
      ensures r.Stored? ==> room == Room(limits, instances, i) && Unread(room) == Unread(instances[i])
    {
      room := instances[i];
      if limits.perInstance != LENGTH_UNLIMITED && |room| >= limits.perInstance {
        if !room[0].read { return Rejected, room; }
        room := room[1..];
      } else if limits.total != LENGTH_UNLIMITED {
        var total := CountSamples();
        if total >= limits.total {
          if room == [] { return NullHead, room; }
          if !room[0].read { return Rejected, room; }
          room := room[1..];
        }
      }
      r := Stored;
    }

    /** A data sample for instance i; `at` is where the reception or source-timestamp order puts it. A full cache gives
        up the oldest sample of the instance if it has been read; the history depth gives up the oldest of what is then
        there, and counts it lost if unread. */
    method StoreData(i: nat, data: int, at: nat) returns (r: StoreResult)
      requires Valid() && i < |instances| && at <= |Room(limits, instances, i)|
      modifies this
      ensures Valid() && seen == old(seen)
      ensures r.NullHead? ==> unchanged(this)
      ensures !r.NullHead? ==> arrived == old(arrived) + 1
      ensures r.Rejected? ==> instances == old(instances) && rejected == old(rejected) + 1 && lost == old(lost)
      ensures var l, full := old(instances)[i], Full(limits, old(instances), i);
              && (r.NullHead? <==> full && l == [])
              && (r.Rejected? <==> full && l != [] && !l[0].read)
              && (r.Stored? ==>
                    var room := if full then l[1..] else l;
                    && at <= |room|
                    && var all := room[..at] + [Sample(data, false)] + room[at..];
                    && instances == old(instances)[i := if limits.depth < |all| then all[1..] else all]
                    && rejected == old(rejected)
                    && lost == old(lost) + if limits.depth < |all| && !all[0].read then 1 else 0)
    {
      FullPlainly(limits, instances, i);
      hide Room, Refused, NoHead, Full, TotalUnread;
      r := Finish(i, data, at);
    }

    method Finish(i: nat, data: int, at: nat) returns (r: StoreResult)
      requires Valid() && i < |instances| && at <= |Room(limits, instances, i)|
      modifies this
      ensures Valid() && seen == old(seen)
      ensures r.NullHead? <==> NoHead(limits, old(instances), i)
      ensures r.Rejected? <==> Refused(limits, old(instances), i)
      ensures r.NullHead? ==> unchanged(this)
      ensures !r.NullHead? ==> arrived == old(arrived) + 1
      ensures r.Rejected? ==> instances == old(instances) && rejected == old(rejected) + 1 && lost == old(lost)
      ensures r.Stored? ==>
                var l := InsertAt(Room(limits, old(instances), i), at, Sample(data, false));
                && instances == old(instances)[i := Trimmed(limits, l)]
                && rejected == old(rejected)
                && lost == old(lost) + if LosesOne(limits, l) then 1 else 0
    {
      hide Room, Refused, NoHead, TotalUnread;
      var room;
      r, room := MakeRoom(i);
      if r == NullHead { return; }
      arrived := arrived + 1;
      if r == Rejected {
        rejected := rejected + 1;
        return;
      }
      UnreadInsert(room, at, Sample(data, false));
      var l := InsertAt(room, at, Sample(data, false));
      if |l| > limits.depth {
        if !l[0].read { lost := lost + 1; }
        l := l[1..];
      }
      UnreadUpdate(instances, i, l);
      instances := instances[i := l];
    }

    /** A dispose or unregister sample: exempt from all limits, stored iff it changes the instance state. */
    method StoreControl(i: nat, data: int, at: nat, changesState: bool)
      requires Valid() && i < |instances| && at <= |instances[i]|
      modifies this
      ensures Valid() && rejected == old(rejected) && lost == old(lost)
      ensures instances == if changesState
                           then old(instances)[i := InsertAt(old(instances)[i], at, Sample(data, false))]
                           else old(instances)
    {
      if changesState {
        arrived := arrived + 1;
        UnreadInsert(instances[i], at, Sample(data, false));
        UnreadUpdate(instances, i, InsertAt(instances[i], at, Sample(data, false)));
        instances := instances[i := InsertAt(instances[i], at, Sample(data, false))];
      }
    }

    /** The application reads sample k of instance i. */
    method ReadSample(i: nat, k: nat)
      requires Valid() && i < |instances| && k < |instances[i]|
      modifies this
      ensures Valid() && rejected == old(rejected) && lost == old(lost) && arrived == old(arrived)
      ensures instances == old(instances)[i := old(instances)[i][k := old(instances)[i][k].(read := true)]]
    {
      var l := instances[i];
      if !l[k].read { seen := seen + 1; }
      UnreadReplace(l, k, l[k].(read := true));
      UnreadUpdate(instances, i, l[k := l[k].(read := true)]);
      instances := instances[i := l[k := l[k].(read := true)]];
    }

    /** The application takes sample k of instance i. */
    method TakeSample(i: nat, k: nat)
      requires Valid() && i < |instances| && k < |instances[i]|
      modifies this
      ensures Valid() && rejected == old(rejected) && lost == old(lost) && arrived == old(arrived)
      ensures instances == old(instances)[i := old(instances)[i][..k] + old(instances)[i][k + 1..]]
    {
      var l := instances[i];
      if !l[k].read { seen := seen + 1; }
      UnreadReplace(l, k, l[k]);
      UnreadUpdate(instances, i, l[..k] + l[k + 1..]);
      instances := instances[i := l[..k] + l[k + 1..]];
    }
  }

  lemma {:induction false} NothingUnread(n: nat)
    ensures TotalUnread(seq(n, i => [])) == 0
  {
    if n > 0 {
      NothingUnread(n - 1);
      assert seq<seq<Sample>>(n, i => [])[1..] == seq(n - 1, i => []);
    }
  }

  /** The case is reached at once: a cache of one sample in all, one sample stored, and a sample for another
      instance. */
  method SecondInstance(first: int, second: int) returns (r: StoreResult)
    ensures r == NullHead
  {
    var reader := new DataReader(Limits(LENGTH_UNLIMITED, 1, 1), 2);
    assert reader.instances == [[], []];
    NothingStored();
    var stored := reader.StoreData(0, first, 0);
    assert [][..0] + [Sample(first, false)] + [][0..] == [Sample(first, false)];
    assert stored == Stored && reader.instances == [[Sample(first, false)], []];
    OneStored(Sample(first, false));
    r := reader.StoreData(1, second, 0);
  }

  lemma NothingStored()
    ensures TotalSamples([[], []]) == 0 == |AllSamples([[], []])|
  {
    TotalIsAll([[], []]);
    assert Sum([[], []][1..], Length) == Length([]) + Sum([], Length);
  }

  lemma OneStored(x: Sample)
    ensures TotalSamples([[x], []]) == 1 == |AllSamples([[x], []])|
  {
    TotalIsAll([[x], []]);
    NothingStored();
    SumUpdate([[], []], 0, [x], Length);
    assert [[], []][0 := [x]] == [[x], []];
  }
}
