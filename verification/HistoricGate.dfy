/** DataReaderImpl: samples from a durable writer are held back until its historic samples have all been sent. One
    waiting round of one writer; each callback is one step. Timers and control messages both resume processing. */
module HistoricGate {
  import opened Basics

  datatype Sample = Sample(number: int, historic: bool, data: int)

  datatype Event =
    | Received(sample: Sample)
    | Resume // END_HISTORIC_SAMPLES, or the timer that gives up waiting for it

  datatype State = State(
    waiting: bool,              // waiting_for_end_historic_samples_
    held: seq<Sample>,          // historic_samples_, an ordered map keyed by sequence number
    lastHistoric: Option<int>,  // last_historic_seq_
    processed: seq<Sample>)     // what went on to the rest of data_received, in order

  const INITIAL := State(true, [], None, [])

  /** std::map::insert: an existing key keeps its sample. */
  function Insert(held: seq<Sample>, x: Sample): seq<Sample> {
    if held == [] then [x]
    else if x.number < held[0].number then [x] + held
    else if x.number == held[0].number then held
    else [held[0]] + Insert(held[1..], x)
  }

  function Marked(held: seq<Sample>): (d: seq<Sample>)
    ensures |d| == |held| && forall i :: 0 <= i < |d| ==> d[i] == held[i].(historic := true)
  {
    if held == [] then [] else [held[0].(historic := true)] + Marked(held[1..])
  }

  function LastNumber(held: seq<Sample>, otherwise: Option<int>): Option<int> {
    if held == [] then otherwise else Some(held[|held| - 1].number)
  }

  /** A live duplicate of something that was delivered as history. */
  predicate Duplicate(last: Option<int>, s: Sample) {
    last.Some? && !s.historic && s.number <= last.value
  }

  function Step(s: State, e: Event): State {
    match e
    case Received(x) =>
      if s.waiting then s.(held := Insert(s.held, x))
      else if Duplicate(s.lastHistoric, x) then s
      else s.(processed := s.processed + [x])
    case Resume =>
      if !s.waiting then s
      else State(false, [], LastNumber(s.held, s.lastHistoric), s.processed + Marked(s.held))
  }

  function Run(s: State, es: seq<Event>): State {
    if es == [] then s else Step(Run(s, es[..|es| - 1]), es[|es| - 1])
  }

  // ---- What a whole run does, told without the state ----

  ghost predicate NoResume(es: seq<Event>) { forall i :: 0 <= i < |es| ==> es[i].Received? }

  /** x is the first sample received with its number. */
  ghost predicate FirstOfItsNumber(es: seq<Event>, x: Sample) {
    exists i :: 0 <= i < |es| && es[i] == Received(x)
                && forall j :: 0 <= j < i && es[j].Received? ==> es[j].sample.number != x.number
  }

  ghost predicate SortedByNumber(held: seq<Sample>) {
    forall i, j :: 0 <= i < j < |held| ==> held[i].number < held[j].number
  }

  /** The live samples that get through once history up to `last` has been delivered. */
  function Passed(es: seq<Event>, last: Option<int>): seq<Sample> {
    if es == [] then []
    else
      var before := Passed(es[..|es| - 1], last);
      match es[|es| - 1]
      case Received(x) => if Duplicate(last, x) then before else before + [x]
      case Resume => before
  }

  lemma InsertFront(held: seq<Sample>, x: Sample)
    requires held == [] || x.number <= held[0].number
    ensures Insert(held, x) == if held == [] || x.number < held[0].number then [x] + held else held
  {
  }

  lemma InsertBehind(held: seq<Sample>, x: Sample)
    requires held != [] && held[0].number < x.number
    ensures Insert(held, x) == [held[0]] + Insert(held[1..], x)
  {
  }

  /** Putting a lower number in front of a sorted list keeps it sorted. */
  lemma SortedCons(first: Sample, rest: seq<Sample>)
    requires SortedByNumber(rest) && forall y <- rest :: first.number < y.number
    ensures SortedByNumber([first] + rest)
  {
    var all := [first] + rest;
    forall i, j | 0 <= i < j < |all| ensures all[i].number < all[j].number {
      assert all[j] == rest[j - 1];
      if 0 < i { assert all[i] == rest[i - 1]; }
    }
  }

  lemma SortedTail(held: seq<Sample>)
    requires SortedByNumber(held) && held != []
    ensures SortedByNumber(held[1..]) && forall y <- held[1..] :: held[0].number < y.number
  {
  }

  lemma InCons(first: Sample, rest: seq<Sample>, y: Sample)
    ensures y in [first] + rest <==> y == first || y in rest
  {
    if y in [first] + rest {
      var i :| 0 <= i < |[first] + rest| && ([first] + rest)[i] == y;
      if 0 < i { assert rest[i - 1] == y; }
    }
    if y in rest {
      var i :| 0 <= i < |rest| && rest[i] == y;
      assert ([first] + rest)[i + 1] == y;
    }
    assert ([first] + rest)[0] == first;
  }

  /** x gets in iff its number is free. */
  predicate Free(held: seq<Sample>, x: Sample) { forall z <- held :: z.number != x.number }

  lemma {:induction false} InsertKeepsOrder(held: seq<Sample>, x: Sample)
    requires SortedByNumber(held)
    ensures SortedByNumber(Insert(held, x))
    ensures forall y :: y in Insert(held, x) <==> y in held || (y == x && Free(held, x))
  {
    hide Insert, SortedByNumber;
    if held == [] {
      InsertFront(held, x);
      SortedCons(x, held);
    } else {
      var first, rest := held[0], held[1..];
      assert held == [first] + rest;
      SortedTail(held);
      forall y ensures y in held <==> y == first || y in rest { InCons(first, rest, y); }
      if first.number < x.number {
        InsertBehind(held, x);
        InsertKeepsOrder(rest, x);
        forall y ensures y in Insert(held, x) <==> y == first || y in Insert(rest, x) {
          InCons(first, Insert(rest, x), y);
        }
        SortedCons(first, Insert(rest, x));
        assert Free(held, x) <==> Free(rest, x);
      } else {
        InsertFront(held, x);
        if x.number < first.number {
          forall y ensures y in [x] + held <==> y == x || y in held { InCons(x, held, y); }
          SortedCons(x, held);
          assert Free(held, x);
        } else {
          assert !Free(held, x);
        }
      }
    }
  }

  /** While waiting, nothing is processed; the first sample of every number is held, in ascending order. */
  lemma {:induction false} WhileWaiting(es: seq<Event>)
    requires NoResume(es)
    ensures var s := Run(INITIAL, es);
            && s.waiting && s.lastHistoric == None && s.processed == []
            && SortedByNumber(s.held)
            && forall x :: x in s.held <==> FirstOfItsNumber(es, x)
  {
    if es != [] {
      var init, e := es[..|es| - 1], es[|es| - 1];
      WhileWaiting(init);
      InsertKeepsOrder(Run(INITIAL, init).held, e.sample);
      forall x ensures FirstOfItsNumber(es, x) <==>
                       (|| FirstOfItsNumber(init, x)
                        || (x == e.sample && forall z :: FirstOfItsNumber(init, z) ==> z.number != x.number)) {
        FirstExtends(init, e.sample, x);
        assert es == init + [e];
      }
    }
  }

  lemma FirstExtends(init: seq<Event>, y: Sample, x: Sample)
    requires NoResume(init)
    ensures FirstOfItsNumber(init + [Received(y)], x) <==>
            (FirstOfItsNumber(init, x) || (x == y && forall z :: FirstOfItsNumber(init, z) ==> z.number != x.number))
  {
    var es := init + [Received(y)];
    if FirstOfItsNumber(init, x) {
      var i :| 0 <= i < |init| && init[i] == Received(x)
               && forall j :: 0 <= j < i && init[j].Received? ==> init[j].sample.number != x.number;
      assert es[i] == Received(x) && forall j :: 0 <= j < i ==> es[j] == init[j];
    }
    if FirstOfItsNumber(es, x) && !FirstOfItsNumber(init, x) {
      var i :| 0 <= i < |es| && es[i] == Received(x)
               && forall j :: 0 <= j < i && es[j].Received? ==> es[j].sample.number != x.number;
      assert forall j :: 0 <= j < |init| ==> es[j] == init[j];
      assert i == |init|;
    }
    if x == y && forall z :: FirstOfItsNumber(init, z) ==> z.number != x.number {
      forall j | 0 <= j < |init| ensures init[j].sample.number != x.number {
        if init[j].sample.number == x.number { FirstWithNumber(init, j); }
      }
      assert es[|init|] == Received(x);
    }
  }

  /** Some sample with the number of sample j is the first of its number. */
  lemma {:induction false} FirstWithNumber(es: seq<Event>, j: nat)
    requires NoResume(es) && j < |es|
    ensures exists z :: FirstOfItsNumber(es, z) && z.number == es[j].sample.number
    decreases j
  {
    if forall k :: 0 <= k < j && es[k].Received? ==> es[k].sample.number != es[j].sample.number {
      assert FirstOfItsNumber(es, es[j].sample);
    } else {
      var k :| 0 <= k < j && es[k].Received? && es[k].sample.number == es[j].sample.number;
      FirstWithNumber(es, k);
    }
  }

  /** At the first resume the held samples are processed, marked historic. Later resumes do nothing, and a live sample
      is processed iff it does not repeat a number up to the last one delivered as history. */
  lemma {:induction false} WholeRun(before: seq<Event>, after: seq<Event>)
    requires NoResume(before)
    ensures var held := Run(INITIAL, before).held;
            var last := LastNumber(held, None);
            Run(INITIAL, before + [Resume] + after) == State(false, [], last, Marked(held) + Passed(after, last))
    decreases |after|
  {
    hide NoResume, FirstOfItsNumber, SortedByNumber, Insert, Marked;
    var es := before + [Resume] + after;
    WhileWaiting(before);
    if after == [] {
      assert es[..|es| - 1] == before && es[|es| - 1] == Resume;
    } else {
      var init := after[..|after| - 1];
      assert es[..|es| - 1] == before + [Resume] + init && es[|es| - 1] == after[|after| - 1];
      WholeRun(before, init);
    }
  }

  /** No number that was delivered as history is processed again as a live sample. */
  lemma {:induction false} NoLiveDuplicate(after: seq<Event>, last: int, i: nat)
    requires i < |Passed(after, Some(last))|
    ensures var s := Passed(after, Some(last))[i]; s.historic || last < s.number
  {
    if after != [] && i < |Passed(after[..|after| - 1], Some(last))| {
      NoLiveDuplicate(after[..|after| - 1], last, i);
    }
  }

  /** e is a sample that gets through once history up to `last` has been delivered: it is historic itself, or newer. */
  predicate Through(e: Event, last: Option<int>) {
    e.Received? && (e.sample.historic || last.None? || last.value < e.sample.number)
  }

  /** How many of the first n events get through. */
  function Rank(es: seq<Event>, last: Option<int>, n: nat): nat
    requires n <= |es|
  {
    if n == 0 then 0 else Rank(es, last, n - 1) + if Through(es[n - 1], last) then 1 else 0
  }

  lemma {:induction false} RankOfPrefix(es: seq<Event>, last: Option<int>, m: nat, n: nat)
    requires n <= m <= |es|
    ensures Rank(es[..m], last, n) == Rank(es, last, n)
    decreases n
  {
    if n > 0 { RankOfPrefix(es, last, m, n - 1); }
  }

  /** What is passed is exactly what gets through, in the order of arrival. */
  lemma {:induction false} PassedPlainly(es: seq<Event>, last: Option<int>, i: nat)
    ensures |Passed(es, last)| == Rank(es, last, |es|)
    ensures i < |es| && Through(es[i], last) ==>
              Rank(es, last, i) < |Passed(es, last)| && Passed(es, last)[Rank(es, last, i)] == es[i].sample
  {
    if es != [] {
      var init := es[..|es| - 1];
      PassedPlainly(init, last, i);
      RankOfPrefix(es, last, |es| - 1, |es| - 1);
      if i < |es| - 1 { RankOfPrefix(es, last, |es| - 1, i); }
    }
  }

  /** A whole run in plain terms: first what was held, marked historic, in ascending order; then, of what comes after
      the first resume, exactly what is historic itself or newer than everything held. */
  lemma RunPlainly(before: seq<Event>, after: seq<Event>)
    requires NoResume(before)
    ensures var held, p := Run(INITIAL, before).held, Run(INITIAL, before + [Resume] + after).processed;
            var last := if held == [] then None else Some(held[|held| - 1].number);
            && SortedByNumber(held) && (forall x :: x in held <==> FirstOfItsNumber(before, x))
            && |p| == |held| + Rank(after, last, |after|)
            && (forall i :: 0 <= i < |held| ==> p[i] == Sample(held[i].number, true, held[i].data))
            && forall i :: 0 <= i < |after| && Through(after[i], last) ==>
                 |held| + Rank(after, last, i) < |p| && p[|held| + Rank(after, last, i)] == after[i].sample
  {
    hide NoResume, Run, FirstOfItsNumber, SortedByNumber, Passed, Rank, Through;
    WhileWaiting(before);
    WholeRun(before, after);
    AllPassed(after, LastNumber(Run(INITIAL, before).held, None));
  }

  lemma AllPassed(es: seq<Event>, last: Option<int>)
    ensures |Passed(es, last)| == Rank(es, last, |es|)
    ensures forall i :: 0 <= i < |es| && Through(es[i], last) ==>
              Rank(es, last, i) < |Passed(es, last)| && Passed(es, last)[Rank(es, last, i)] == es[i].sample
  {
    hide Passed, Rank;
    PassedPlainly(es, last, 0);
    forall i | 0 <= i < |es| && Through(es[i], last)
      ensures Rank(es, last, i) < |Passed(es, last)| && Passed(es, last)[Rank(es, last, i)] == es[i].sample
    {
      PassedPlainly(es, last, i);
    }
  }

  lemma ConsSplice(first: Sample, rest: seq<Sample>, i: nat, x: Sample)
    requires i <= |rest|
    ensures var held := [first] + rest;
            [first] + (rest[..i] + [x] + rest[i..]) == held[..i + 1] + [x] + held[i + 1..]
  {
  }

  /** Where the search for a number stops, Insert puts the sample or finds its number taken. */
  lemma {:induction false} InsertAt(held: seq<Sample>, i: nat, x: Sample)
    requires i <= |held| && (forall j :: 0 <= j < i ==> held[j].number < x.number)
    requires i < |held| ==> x.number <= held[i].number
    ensures Insert(held, x) == if i == |held| || x.number < held[i].number then held[..i] + [x] + held[i..] else held
  {
    hide Insert;
    if i == 0 {
      InsertFront(held, x);
    } else {
      InsertBehind(held, x);
      InsertAt(held[1..], i - 1, x);
      assert held == [held[0]] + held[1..];
      ConsSplice(held[0], held[1..], i - 1, x);
    }
  }

  /** std::map::insert, by searching for the place. */
  method Hold(held: seq<Sample>, x: Sample) returns (held': seq<Sample>)
    ensures held' == Insert(held, x)
  {
    hide Insert;
    var i := 0;
    while i < |held| && held[i].number < x.number
      invariant 0 <= i <= |held| && forall j :: 0 <= j < i ==> held[j].number < x.number
    {
      i := i + 1;
    }
    InsertAt(held, i, x);
    held' := if i == |held| || x.number < held[i].number then held[..i] + [x] + held[i..] else held;
  }

  /** A reader's view of one writer. */
  class WriterInfo {
    var waiting: bool
    var held: seq<Sample>
    var lastHistoric: Option<int>
    ghost var processed: seq<Sample>

    ghost function Abs(): State
      reads this
    {
      State(waiting, held, lastHistoric, processed)
    }

    constructor ()
      ensures Abs() == INITIAL
    {
      waiting, held, lastHistoric, processed := true, [], None, [];
    }

    /** May the sample be processed now? */
    method CheckHistoric(x: Sample) returns (process: bool)
      modifies this`held
      ensures held == if waiting then Insert(old(held), x) else old(held)
      ensures process <==>
              !waiting && !(lastHistoric.Some? && !x.historic && x.number <= lastHistoric.value)
    {
      if waiting {
        held := Hold(held, x);
        return false;
      }
      if lastHistoric != None && !x.historic && x.number <= lastHistoric.value {
        return false; // must have been seen before the end of history
      }
      return true;
    }

    method DataReceived(x: Sample)
      modifies this
      ensures Abs() == Step(old(Abs()), Received(x))
    {
      var process := CheckHistoric(x);
      if process { processed := processed + [x]; }
    }

    method ResumeSampleProcessing()
      modifies this
      ensures Abs() == Step(old(Abs()), Resume)
    {
      if waiting {
        waiting := false;
        if held != [] { lastHistoric := Some(held[|held| - 1].number); }
        var toDeliver := held;
        held := [];
        DeliverHistoric(toDeliver);
      }
    }

    /** Held samples, marked historic, go through data_received again and now pass the gate. */
    method DeliverHistoric(samples: seq<Sample>)
      requires !waiting
      modifies this
      ensures Abs() == old(Abs()).(processed := old(processed) + Marked(samples))
    {
      hide Marked;
      var i := 0;
      assert samples[..0] == [] && Marked([]) == [];
      while i < |samples|
        invariant 0 <= i <= |samples|
        invariant Abs() == old(Abs()).(processed := old(processed) + Marked(samples[..i]))
      {
        DataReceived(samples[i].(historic := true));
        MarkedAppend(samples[..i], samples[i]);
        assert samples[..i + 1] == samples[..i] + [samples[i]];
        i := i + 1;
      }
      assert samples[..i] == samples;
    }
  }

  lemma MarkedAppend(held: seq<Sample>, x: Sample)
    ensures Marked(held + [x]) == Marked(held) + [x.(historic := true)]
  {
  }
}
