/** DataDurabilityCache: queues of durable samples in reusable slots, the timers that clean them up, and replay. */
module Durability {

  datatype Key = Key(domain: int, topic: string, typeName: string)

  datatype Sample = Sample(data: int, coherent: bool)

  /** A queue; `id` stands for its address. */
  datatype Queue = Queue(id: nat, samples: seq<Sample>)

  datatype Slot = Empty | Full(queue: Queue)

  type Lists = map<Key, seq<Slot>>

  /** The slot a cleanup handler refers to. */
  datatype Place = Place(key: Key, index: nat)

  datatype Policy = Policy(keepAll: bool, historyDepth: int, maxSamplesPerInstance: int, cleanupDelay: int)

  const LENGTH_UNLIMITED := -1

  function Depth(qos: Policy): int {
    var depth := if qos.keepAll then qos.maxSamplesPerInstance else qos.historyDepth;
    if depth == LENGTH_UNLIMITED then 0x7fffffff else depth
  }

  // ---- What one writer leaves behind ----

  function NonCoherent(s: seq<Sample>): seq<Sample> {
    if s == [] then [] else (if s[0].coherent then [] else [s[0]]) + NonCoherent(s[1..])
  }

  /** The samples cached: of the last `depth`, those outside coherent sets. */
  function Cached(data: seq<Sample>, depth: int): seq<Sample>
    requires 0 < depth
  {
    NonCoherent(if |data| > depth then data[|data| - depth..] else data)
  }

  lemma {:induction false} NonCoherentConcat(a: seq<Sample>, b: seq<Sample>)
    ensures NonCoherent(a + b) == NonCoherent(a) + NonCoherent(b)
  {
    if a == [] {
      assert a + b == b;
    } else {
      assert (a + b)[1..] == a[1..] + b;
      NonCoherentConcat(a[1..], b);
    }
  }

  /** What is cached is a tail of what the writer would cache with unlimited depth, at most `depth` long. */
  lemma CachedIsNewest(data: seq<Sample>, depth: int)
    requires 0 < depth
    ensures |Cached(data, depth)| <= depth
    ensures exists dropped :: NonCoherent(data) == dropped + Cached(data, depth)
    ensures |data| <= depth ==> Cached(data, depth) == NonCoherent(data)
  {
    var cut := if |data| > depth then |data| - depth else 0;
    assert data == data[..cut] + data[cut..] && (cut == 0 ==> data[cut..] == data);
    NonCoherentConcat(data[..cut], data[cut..]);
    NonCoherentLength(data[cut..]);
  }

  lemma {:induction false} NonCoherentLength(s: seq<Sample>)
    ensures |NonCoherent(s)| <= |s|
  {
    if s != [] { NonCoherentLength(s[1..]); }
  }

  /** How many of the samples from..end-1 are outside coherent sets. */
  function Outside(data: seq<Sample>, from: nat, end: nat): nat
    requires end <= |data|
  {
    if end <= from then 0 else Outside(data, from, end - 1) + if data[end - 1].coherent then 0 else 1
  }

  /** The samples are, in order, those outside coherent sets among the last `depth` ones. */
  ghost predicate NewestOutside(data: seq<Sample>, depth: int, samples: seq<Sample>) {
    var from := if depth < |data| && 0 <= depth then |data| - depth else 0;
    && |samples| == Outside(data, from, |data|)
    && forall j :: from <= j < |data| && !data[j].coherent ==>
         Outside(data, from, j) < |samples| && samples[Outside(data, from, j)] == data[j]
  }

  lemma {:induction false} OutsideCounts(data: seq<Sample>, from: nat, end: nat)
    requires from <= end <= |data|
    ensures |NonCoherent(data[from..end])| == Outside(data, from, end)
    decreases end
  {
    if from < end {
      OutsideCounts(data, from, end - 1);
      OneMoreSample(data, from, end);
    } else {
      assert data[from..end] == [];
    }
  }

  lemma OneMoreSample(data: seq<Sample>, from: nat, end: nat)
    requires from < end <= |data|
    ensures NonCoherent(data[from..end]) ==
            NonCoherent(data[from..end - 1]) + if data[end - 1].coherent then [] else [data[end - 1]]
  {
    var last := data[end - 1];
    assert data[from..end] == data[from..end - 1] + [last];
    NonCoherentConcat(data[from..end - 1], [last]);
    assert [last][1..] == [];
  }

  lemma {:induction false} NonCoherentAt(data: seq<Sample>, from: nat, end: nat, j: nat)
    requires from <= j < end <= |data| && !data[j].coherent
    ensures Outside(data, from, j) < |NonCoherent(data[from..end])|
    ensures NonCoherent(data[from..end])[Outside(data, from, j)] == data[j]
    decreases end
  {
    hide NonCoherent;
    OneMoreSample(data, from, end);
    if j < end - 1 { NonCoherentAt(data, from, end - 1, j); } else { OutsideCounts(data, from, j); }
  }

  /** A sample is cached iff it is among the last `depth` and outside coherent sets. */
  lemma CachedPlainly(data: seq<Sample>, depth: int)
    requires 0 < depth
    ensures NewestOutside(data, depth, Cached(data, depth))
  {
    hide NonCoherent, Outside, Cached;
    var from := if depth < |data| then |data| - depth else 0;
    CachedFrom(data, depth);
    assert data[from..|data|] == data[from..];
    OutsideCounts(data, from, |data|);
    AllAt(data, from);
  }

  lemma AllAt(data: seq<Sample>, from: nat)
    requires from <= |data|
    ensures forall j :: from <= j < |data| && !data[j].coherent ==>
              && Outside(data, from, j) < |NonCoherent(data[from..|data|])|
              && NonCoherent(data[from..|data|])[Outside(data, from, j)] == data[j]
  {
    forall j | from <= j < |data| && !data[j].coherent
      ensures Outside(data, from, j) < |NonCoherent(data[from..|data|])|
      ensures NonCoherent(data[from..|data|])[Outside(data, from, j)] == data[j]
    {
      NonCoherentAt(data, from, |data|, j);
    }
  }

  // ---- Slots ----

  predicate Occupied(lists: Lists, p: Place) {
    p.key in lists && p.index < |lists[p.key]| && lists[p.key][p.index].Full?
  }

  function QueueAt(lists: Lists, p: Place): Queue
    requires Occupied(lists, p)
  {
    lists[p.key][p.index].queue
  }

  /** A key not seen before gets an array of one empty slot. */
  function Slots(lists: Lists, key: Key): seq<Slot> {
    if key in lists then lists[key] else [Empty]
  }

  /** The slot array with slot k, possibly one past its end, set. */
  function Put(slots: seq<Slot>, k: nat, slot: Slot): seq<Slot>
    requires k <= |slots|
  {
    if k == |slots| then slots + [slot] else slots[k := slot]
  }

  predicate FirstFree(slots: seq<Slot>, k: nat) {
    k <= |slots| && (forall i: nat :: i < k ==> slots[i].Full?) && (k < |slots| ==> slots[k].Empty?)
  }

  method FindSlot(slots: seq<Slot>) returns (k: nat)
    ensures FirstFree(slots, k)
  {
    k := 0;
    while k < |slots| && slots[k].Full?
      invariant k <= |slots| && forall i: nat :: i < k ==> slots[i].Full?
    {
      k := k + 1;
    }
  }

  lemma CachedFrom(data: seq<Sample>, depth: int)
    requires 0 < depth
    ensures Cached(data, depth) == NonCoherent(data[if |data| > depth then |data| - depth else 0..])
  {
    assert data[0..] == data;
  }

  method CopySamples(data: seq<Sample>, depth: int) returns (samples: seq<Sample>)
    requires 0 < depth
    ensures samples == Cached(data, depth)
  {
    var i := if |data| > depth then |data| - depth else 0;
    ghost var from := i;
    samples := [];
    assert data[from..i] == [];
    hide Cached;
    while i < |data|
      invariant from <= i <= |data| && samples == NonCoherent(data[from..i])
    {
      NonCoherentConcat(data[from..i], [data[i]]);
      assert data[from..i + 1] == data[from..i] + [data[i]];
      if !data[i].coherent { samples := samples + [data[i]]; }
      i := i + 1;
    }
    assert data[from..i] == data[from..];
    CachedFrom(data, depth);
  }

  // ---- Slots and timers ----

  /** The place is where this queue was put, and unless it is kept for good its own timer refers to that place. */
  ghost predicate Owned(q: Queue, p: Place, timers: map<int, Place>, b: Books) {
    && q.id in b.home && b.home[q.id] == p
    && (q.id in b.kept || (q.id in b.timerOf && b.timerOf[q.id] in timers && timers[b.timerOf[q.id]] == p))
  }

  /** For every queue ever made: where it was put, which timer its insertion scheduled, or that it got none. */
  datatype Books = Books(home: map<nat, Place>, timerOf: map<nat, int>, kept: set<nat>)

  /** Every queue in a slot is owned, and every pending timer refers to a slot that still holds the queue it was
      scheduled for. */
  ghost predicate Consistent(lists: Lists, timers: map<int, Place>, b: Books) {
    && (forall key <- lists :: lists[key] != []) && b.kept <= b.home.Keys
    && (forall p :: Occupied(lists, p) ==> Owned(QueueAt(lists, p), p, timers, b))
    && (forall t <- timers :: Occupied(lists, timers[t]) && TimerOwns(QueueAt(lists, timers[t]), t, b))
  }

  ghost predicate TimerOwns(q: Queue, t: int, b: Books) {
    q.id !in b.kept && q.id in b.timerOf && b.timerOf[q.id] == t
  }

  /** No two pending timers share a slot, and no queue is in two slots. */
  lemma TimersAreDisjoint(lists: Lists, timers: map<int, Place>, b: Books)
    requires Consistent(lists, timers, b)
    ensures forall t, u :: t in timers && u in timers && t != u ==> timers[t] != timers[u]
    ensures forall p, q :: Occupied(lists, p) && Occupied(lists, q) && QueueAt(lists, p).id == QueueAt(lists, q).id ==>
                             p == q
  {
  }

  /** Two states of the lists agree on every slot but p. */
  ghost predicate SameElsewhere(l: Lists, m: Lists, p: Place) {
    forall q :: q != p ==> (Occupied(l, q) <==> Occupied(m, q)) && (Occupied(l, q) ==> QueueAt(l, q) == QueueAt(m, q))
  }

  /** Storing in a free slot touches no other slot. */
  lemma PutKeeps(lists: Lists, key: Key, k: nat, slot: Slot)
    requires FirstFree(Slots(lists, key), k)
    ensures var l := lists[key := Put(Slots(lists, key), k, slot)];
            && !Occupied(lists, Place(key, k))
            && (Occupied(l, Place(key, k)) <==> slot.Full?)
            && (slot.Full? ==> QueueAt(l, Place(key, k)) == slot.queue)
            && SameElsewhere(l, lists, Place(key, k))
  {
  }

  /** Emptying a slot touches no other slot. */
  lemma ClearKeeps(lists: Lists, p: Place)
    requires Occupied(lists, p)
    ensures var l := lists[p.key := lists[p.key][p.index := Empty]]; !Occupied(l, p) && SameElsewhere(l, lists, p)
  {
  }

  /** A new queue in a free slot that is kept for good. */
  lemma KeptConsistent(lists: Lists, l: Lists, timers: map<int, Place>, b: Books, p: Place, q: Queue)
    requires Consistent(lists, timers, b) && !Occupied(lists, p) && SameElsewhere(l, lists, p)
    requires Occupied(l, p) && QueueAt(l, p) == q && q.id !in b.home && forall key <- l :: l[key] != []
    ensures Consistent(l, timers, b.(home := b.home[q.id := p], kept := b.kept + {q.id}))
  {
    hide Occupied, QueueAt;
  }

  /** A new queue in a free slot with a timer of its own. */
  lemma TimedConsistent(lists: Lists, l: Lists, timers: map<int, Place>, b: Books, p: Place, q: Queue, tid: int)
    requires Consistent(lists, timers, b) && !Occupied(lists, p) && SameElsewhere(l, lists, p)
    requires Occupied(l, p) && QueueAt(l, p) == q && q.id !in b.home && forall key <- l :: l[key] != []
    requires tid !in timers
    ensures Consistent(l, timers[tid := p], b.(home := b.home[q.id := p], timerOf := b.timerOf[q.id := tid]))
  {
    hide Occupied, QueueAt;
  }

  /** A free slot that stays free. */
  lemma FreeConsistent(lists: Lists, l: Lists, timers: map<int, Place>, b: Books, p: Place)
    requires Consistent(lists, timers, b) && !Occupied(lists, p) && SameElsewhere(l, lists, p)
    requires !Occupied(l, p) && forall key <- l :: l[key] != []
    ensures Consistent(l, timers, b)
  {
    hide Occupied, QueueAt;
  }

  /** The books after an insertion at p, with a timer unless tid is -1. */
  function Recorded(b: Books, p: Place, q: Queue, tid: int): Books {
    var home := b.home[q.id := p];
    if tid == -1 then b.(home := home, kept := b.kept + {q.id})
    else b.(home := home, timerOf := b.timerOf[q.id := tid])
  }

  /** Insertion keeps slots and timers consistent. */
  lemma PutConsistent(lists: Lists, timers: map<int, Place>, b: Books, p: Place, slot: Slot, tid: int)
    requires Consistent(lists, timers, b) && FirstFree(Slots(lists, p.key), p.index)
    requires slot.Full? ==> slot.queue.id !in b.home && (tid == -1 || tid !in timers)
    ensures var l := lists[p.key := Put(Slots(lists, p.key), p.index, slot)];
            match slot
            case Empty => Consistent(l, timers, b)
            case Full(q) => Consistent(l, if tid == -1 then timers else timers[tid := p], Recorded(b, p, q, tid))
  {
    var l := lists[p.key := Put(Slots(lists, p.key), p.index, slot)];
    PutKeeps(lists, p.key, p.index, slot);
    assert forall key <- l :: l[key] != [];
    hide Consistent, Occupied, QueueAt, SameElsewhere, FirstFree, Put;
    match slot
    case Empty => FreeConsistent(lists, l, timers, b, p);
    case Full(q) =>
      if tid == -1 { KeptConsistent(lists, l, timers, b, p, q); }
      else { TimedConsistent(lists, l, timers, b, p, q, tid); }
  }

  // ---- Replay ----

  function Contents(slots: seq<Slot>): seq<Sample> {
    if slots == [] then [] else (if slots[0].Full? then slots[0].queue.samples else []) + Contents(slots[1..])
  }

  lemma {:induction false} ContentsConcat(a: seq<Slot>, b: seq<Slot>)
    ensures Contents(a + b) == Contents(a) + Contents(b)
  {
    if a == [] {
      assert a + b == b;
    } else {
      assert (a + b)[1..] == a[1..] + b;
      ContentsConcat(a[1..], b);
      assert Contents(a + b) == Contents(a) + Contents(b);
    }
  }

  /** How many samples the first n slots hold. */
  function Offset(slots: seq<Slot>, n: nat): nat
    requires n <= |slots|
  {
    if n == 0 then 0
    else Offset(slots, n - 1) + if slots[n - 1].Full? then |slots[n - 1].queue.samples| else 0
  }

  /** The contents are slot by slot, and in each slot sample by sample. */
  lemma {:induction false} ContentsAt(slots: seq<Slot>, n: nat, i: nat, j: nat)
    requires n <= |slots|
    ensures |Contents(slots[..n])| == Offset(slots, n)
    ensures i < n && slots[i].Full? && j < |slots[i].queue.samples| ==>
              && Offset(slots, i) + j < |Contents(slots[..n])|
              && Contents(slots[..n])[Offset(slots, i) + j] == slots[i].queue.samples[j]
    decreases n
  {
    if n == 0 {
      assert slots[..n] == [];
    } else {
      ContentsAt(slots, n - 1, i, j);
      assert slots[..n] == slots[..n - 1] + [slots[n - 1]];
      ContentsConcat(slots[..n - 1], [slots[n - 1]]);
      assert [slots[n - 1]][1..] == [];
    }
  }

  lemma NothingContained()
    ensures Contents([]) == []
  {
  }

  /** The slots with the queues before slot n emptied (but not freed). */
  function Drained(slots: seq<Slot>, n: nat): (r: seq<Slot>)
    requires n <= |slots|
    ensures |r| == |slots|
    ensures forall i: nat :: i < |slots| ==>
                               r[i] == if i < n && slots[i].Full? then Full(slots[i].queue.(samples := []))
                                       else slots[i]
  {
    seq(|slots|, i requires 0 <= i < |slots| =>
      if i < n && slots[i].Full? then Full(slots[i].queue.(samples := [])) else slots[i])
  }

  lemma DrainOneMore(slots: seq<Slot>, n: nat)
    requires n < |slots| && slots[n].Full?
    ensures Drained(slots, n)[n := Full(slots[n].queue.(samples := []))] == Drained(slots, n + 1)
    ensures Contents(slots[..n + 1]) == Contents(slots[..n]) + slots[n].queue.samples
  {
    assert slots[..n + 1] == slots[..n] + [slots[n]];
    ContentsConcat(slots[..n], [slots[n]]);
    assert Contents([slots[n]]) == slots[n].queue.samples;
  }

  lemma DrainedConsistent(lists: Lists, key: Key, n: nat, timers: map<int, Place>, b: Books)
    requires Consistent(lists, timers, b) && key in lists && n <= |lists[key]|
    ensures Consistent(lists[key := Drained(lists[key], n)], timers, b)
  {
    var l := lists[key := Drained(lists[key], n)];
    forall p ensures (Occupied(l, p) <==> Occupied(lists, p)) &&
                     (Occupied(l, p) ==> QueueAt(l, p).id == QueueAt(lists, p).id) {}
  }

  /** How a replay ends: NullQueue is the read through the pointer of a slot that is empty. */
  datatype Replay = Delivered | Failed | NullQueue

  predicate Replayable(slots: seq<Slot>, accepts: Sample -> bool) {
    && (forall i: nat :: i < |slots| ==> slots[i].Full?)
    && slots != [] && slots[0].queue.samples != []
    && (forall i: nat :: i < |slots| ==> AcceptsAll(slots[i].queue.samples, accepts))
  }

  predicate AcceptsAll(samples: seq<Sample>, accepts: Sample -> bool) {
    forall j: nat :: j < |samples| ==> accepts(samples[j])
  }

  /** Writes samples until the writer refuses one. */
  method WriteQueue(samples: seq<Sample>, accepts: Sample -> bool) returns (k: nat)
    ensures k <= |samples| && (forall j: nat :: j < k ==> accepts(samples[j]))
    ensures k < |samples| ==> !accepts(samples[k])
  {
    k := 0;
    while k < |samples| && accepts(samples[k])
      invariant k <= |samples| && forall j: nat :: j < k ==> accepts(samples[j])
    {
      k := k + 1;
    }
  }

  /** How a replay went: everything delivered, or stopped in slot n, whose first k samples were written. */
  ghost predicate Replays(slots: seq<Slot>, registered: bool, accepts: Sample -> bool, r: Replay, written: seq<Sample>,
                          n: nat, k: nat)
    requires n <= |slots|
  {
    && (r.Delivered? <==> registered && Replayable(slots, accepts))
    && (r.Delivered? ==> n == |slots| && written == Contents(slots))
    && (forall i: nat :: i < n ==> slots[i].Full? && AcceptsAll(slots[i].queue.samples, accepts))
    && (0 < n ==> registered && slots[0].queue.samples != [])
    && (r.NullQueue? ==> n < |slots| && slots[n].Empty? && written == Contents(slots[..n]))
    && (r.Failed? ==>
          && n < |slots| && slots[n].Full? && k <= |slots[n].queue.samples|
          && written == Contents(slots[..n]) + slots[n].queue.samples[..k]
          && AcceptsAll(slots[n].queue.samples[..k], accepts)
          && if n == 0 && (!registered || slots[0].queue.samples == []) then k == 0
             else k < |slots[n].queue.samples| && !accepts(slots[n].queue.samples[k]))
  }

  /** Registers with the first sample, then writes the queues one by one, emptying each. */
  method ReplaySlots(slots: seq<Slot>, registered: bool, accepts: Sample -> bool)
    returns (r: Replay, written: seq<Sample>, drained: seq<Slot>, n: nat, k: nat)
    requires slots != []
    ensures n <= |slots| && drained == Drained(slots, n) && Replays(slots, registered, accepts, r, written, n, k)
  {
    hide Contents;
    NothingContained();
    written, drained, n, k := [], slots, 0, 0;
    assert Drained(slots, 0) == slots && slots[..0] == [];
    if slots[0].Empty? { return NullQueue, written, drained, n, k; }
    if slots[0].queue.samples == [] || !registered { return Failed, written, drained, n, k; }
    var i: nat := 0;
    while i < |slots|
      invariant i <= |slots| && n == i && k == 0 && drained == Drained(slots, i) && written == Contents(slots[..i])
      invariant forall j: nat :: j < i ==> slots[j].Full? && AcceptsAll(slots[j].queue.samples, accepts)
    {
      if slots[i].Empty? { return NullQueue, written, drained, n, k; }
      var m := WriteQueue(slots[i].queue.samples, accepts);
      written := written + slots[i].queue.samples[..m];
      if m < |slots[i].queue.samples| {
        k := m;
        return Failed, written, drained, n, k;
      }
      DrainOneMore(slots, i);
      drained := drained[i := Full(slots[i].queue.(samples := []))];
      i := i + 1;
      n := i;
    }
    assert slots[..i] == slots;
    return Delivered, written, drained, n, k;
  }

  class DurabilityCache {
    var lists: Lists
    var timers: map<int, Place> // cleanup_timer_ids_ with the handlers behind them
    var next: nat               // where the next queue will be allocated
    ghost var books: Books

    ghost predicate Valid()
      reads this
    {
      Consistent(lists, timers, books) && forall id <- books.home :: id < next
    }

    constructor ()
      ensures Valid() && lists == map[] && timers == map[]
    {
      lists, timers, next := map[], map[], 0;
      books := Books(map[], map[], {});
    }

    /** `tid` is what the reactor answers when asked for a timer: -1, or a number no pending timer has. */
    method Insert(key: Key, data: seq<Sample>, qos: Policy, tid: int) returns (ok: bool, ghost slot: nat)
      requires Valid() && (tid == -1 || tid !in timers)
      modifies this
      ensures Valid()
      ensures data == [] || Depth(qos) <= 0 ==> unchanged(this) && (ok <==> data == [] || Depth(qos) == 0)
      ensures data != [] && Depth(qos) > 0 ==>
                && FirstFree(Slots(old(lists), key), slot)
                && (ok <==> qos.cleanupDelay <= 0 || tid != -1)
                && lists == old(lists)[key := Put(Slots(old(lists), key), slot,
                                                  if ok then Full(Queue(old(next), Cached(data, Depth(qos))))
                                                  else Empty)]
      ensures data != [] && Depth(qos) > 0 && qos.cleanupDelay > 0 && tid != -1 ==>
                && timers == old(timers)[tid := Place(key, slot)]
                && books.timerOf == old(books).timerOf[old(next) := tid]
      ensures data == [] || Depth(qos) <= 0 || qos.cleanupDelay <= 0 || tid == -1 ==>
                timers == old(timers) && books.timerOf == old(books).timerOf
      ensures var limit := if qos.keepAll then qos.maxSamplesPerInstance else qos.historyDepth;
              var depth := if limit == -1 then 0x7fffffff else limit;
              && (data != [] && depth < 0 ==> !ok)
              && (data != [] && 0 < depth && ok ==>
                    && key in lists && slot < |lists[key]| && lists[key][slot].Full?
                    && NewestOutside(data, depth, lists[key][slot].queue.samples))
    {
      slot := 0;
      if data == [] { return true, slot; }
      if Depth(qos) < 0 { return false, slot; }
      if Depth(qos) == 0 { return true, slot; }
      var k := FindSlot(Slots(lists, key));
      var samples := CopySamples(data, Depth(qos));
      CachedPlainly(data, Depth(qos));
      slot := k;
      ok := qos.cleanupDelay <= 0 || tid != -1;
      var place, id := Place(key, k), next;
      hide Cached, FirstFree, Slots, Put, NewestOutside;
      PutConsistent(lists, timers, books, place, if ok then Full(Queue(id, samples)) else Empty,
                    if qos.cleanupDelay > 0 then tid else -1);
      lists := lists[key := Put(Slots(lists, key), k, if ok then Full(Queue(id, samples)) else Empty)];
      next := next + 1;
      if ok {
        books := Recorded(books, place, Queue(id, samples), if qos.cleanupDelay > 0 then tid else -1);
        if qos.cleanupDelay > 0 { timers := timers[tid := place]; }
      }
    }

    /** handle_timeout: the queue freed is the one whose insertion scheduled this timer, and nothing else is touched. */
    method Timeout(tid: int)
      requires Valid() && tid in timers
      modifies this`lists, this`timers
      ensures Valid()
      ensures Occupied(old(lists), old(timers)[tid]) && TimerOwns(QueueAt(old(lists), old(timers)[tid]), tid, books)
      ensures var p := old(timers)[tid]; lists == old(lists)[p.key := old(lists)[p.key][p.index := Empty]]
      ensures timers == old(timers) - {tid}
    {
      var p := timers[tid];
      TimersAreDisjoint(lists, timers, books);
      ClearKeeps(lists, p);
      lists := lists[p.key := lists[p.key][p.index := Empty]];
      timers := timers - {tid};
    }

    /** get_data: writes the queues in slot order and empties each once it is written. It delivers everything exactly
        when no slot is empty, the first queue is not, and registration and every write succeed. Otherwise it stops in
        slot n, whose first k samples were written and are still cached. */
    method GetData(key: Key, registered: bool, accepts: Sample -> bool)
      returns (r: Replay, written: seq<Sample>, ghost n: nat, ghost k: nat)
      requires Valid()
      modifies this`lists
      ensures Valid()
      ensures key !in old(lists) ==> r == Delivered && written == [] && lists == old(lists)
      ensures key in old(lists) ==>
                && n <= |old(lists)[key]| && lists == old(lists)[key := Drained(old(lists)[key], n)]
                && Replays(old(lists)[key], registered, accepts, r, written, n, k)
    {
      written, n, k := [], 0, 0;
      if key !in lists { return Delivered, written, n, k; }
      var slots := lists[key];
      assert slots != [];
      hide Consistent, Replays;
      var drained;
      r, written, drained, n, k := ReplaySlots(slots, registered, accepts);
      DrainedConsistent(lists, key, n, timers, books);
      lists := lists[key := drained];
    }
  }

  /** Once a timer has emptied a slot, replay reads through a null pointer, even with nothing left to deliver. */
  method ReplayAfterCleanup(key: Key, data: seq<Sample>, qos: Policy, tid: int) returns (r: Replay)
    requires data != [] && Depth(qos) > 0 && qos.cleanupDelay > 0 && tid != -1
    ensures r == NullQueue
  {
    var cache := new DurabilityCache();
    var ok, slot := cache.Insert(key, data, qos, tid);
    cache.Timeout(tid);
    var replay, written, n, k := cache.GetData(key, true, x => true);
    return replay;
  }
}
