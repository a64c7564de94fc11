/** TransportReassembly: the fragments of a sample arrive in any order, singly or in chunks, and are kept in a list of
    ranges of transport sequence numbers that are joined as they meet. */
module TransportReassembly {
  import opened Basics
  import opened Wire
  import opened SampleHeaders
  import opened Fragmentation
  import opened SampleSplitting

  /** Consecutive fragments first..second, joined. */
  datatype FragRange = FragRange(first: nat, second: nat, header: Header, payload: seq<Octet>)

  function Joined(a: FragRange, b: FragRange): Option<FragRange> {
    match Join(a.header, b.header)
    case None => None
    case Some(h) => Some(FragRange(a.first, b.second, h, a.payload + b.payload))
  }

  /** What an insertion leaves behind. */
  datatype Inserted = Inserted(ok: bool, list: seq<FragRange>)

  function After(e: FragRange, rest: Inserted): Inserted { Inserted(rest.ok, [e] + rest.list) }

  /** e, which has grown on the right, is joined with the range that follows if they now meet. */
  function Coalesce(e: FragRange, rest: seq<FragRange>): Inserted {
    if rest != [] && e.second + 1 == rest[0].first
    then match Joined(e, rest[0])
      case None => Inserted(false, [e] + rest)
      case Some(j) => Inserted(true, [j] + rest[1..])
    else Inserted(true, [e] + rest)
  }

  /** The list with r put in its place, joined with the ranges it meets. */
  function Put(l: seq<FragRange>, r: FragRange): Inserted {
    if l == [] then Inserted(true, [r])
    else if r.second + 1 < l[0].first then Inserted(true, [r] + l)
    else if r.second + 1 == l[0].first then
      match Joined(r, l[0])
      case None => Inserted(false, l)
      case Some(j) => Inserted(true, [j] + l[1..])
    else if r.first == l[0].second + 1 then
      match Joined(l[0], r)
      case None => Inserted(false, l)
      case Some(j) => Coalesce(j, l[1..])
    else After(l[0], Put(l[1..], r))
  }

  // ---- How often a number is held ----

  predicate Has(r: FragRange, x: int) { r.first <= x <= r.second }

  /** How many ranges of the list hold x. */
  function Times(l: seq<FragRange>, x: int): nat {
    if l == [] then 0 else (if Has(l[0], x) then 1 else 0) + Times(l[1..], x)
  }

  predicate Ranges(l: seq<FragRange>) { forall i :: 0 <= i < |l| ==> l[i].first <= l[i].second }

  lemma TimesCons(e: FragRange, l: seq<FragRange>, x: int)
    ensures Times([e] + l, x) == (if Has(e, x) then 1 else 0) + Times(l, x)
  {
    assert ([e] + l)[1..] == l;
  }

  lemma {:induction false} TimesAppend(l: seq<FragRange>, r: FragRange, x: int)
    ensures Times(l + [r], x) == Times(l, x) + if Has(r, x) then 1 else 0
  {
    if l == [] {
      assert l + [r] == [r];
    } else {
      assert (l + [r])[1..] == l[1..] + [r];
      TimesAppend(l[1..], r, x);
    }
  }

  /** A number is held iff some range holds it. */
  lemma {:induction false} TimesIff(l: seq<FragRange>, x: int)
    ensures 0 < Times(l, x) <==> exists i :: 0 <= i < |l| && Has(l[i], x)
  {
    if l == [] {
    } else {
      var rest := l[1..];
      TimesIff(rest, x);
      if i :| 0 <= i < |rest| && Has(rest[i], x) { assert l[i + 1] == rest[i]; }
      if i :| 0 <= i < |l| && Has(l[i], x) { assert 0 < i ==> l[i] == rest[i - 1]; }
    }
  }

  /** Insertion neither loses nor invents a number. If joining fails nothing is lost. */
  lemma {:induction false} PutCounts(l: seq<FragRange>, r: FragRange, x: int)
    requires Ranges(l) && r.first <= r.second
    ensures Put(l, r).ok ==> Times(Put(l, r).list, x) == Times(l, x) + if Has(r, x) then 1 else 0
    ensures Times(l, x) <= Times(Put(l, r).list, x)
    decreases |l|
  {
    if l == [] {
    } else {
      var rest := l[1..];
      assert l == [l[0]] + rest;
      TimesCons(r, l, x);
      if r.second + 1 == l[0].first {
        JoinCounts(r, l[0], rest, x);
      } else if r.first == l[0].second + 1 {
        JoinCounts(l[0], r, rest, x);
        if Joined(l[0], r).Some? { CoalesceCounts(Joined(l[0], r).value, rest, x); }
      } else {
        PutCounts(rest, r, x);
        TimesCons(l[0], Put(rest, r).list, x);
      }
    }
  }

  /** Neighbours have no number in common. */
  lemma JoinCounts(a: FragRange, b: FragRange, rest: seq<FragRange>, x: int)
    requires a.first <= a.second && a.second + 1 == b.first <= b.second
    ensures Joined(a, b).Some? ==>
              Times([Joined(a, b).value] + rest, x)
              == Times(rest, x) + (if Has(a, x) then 1 else 0) + if Has(b, x) then 1 else 0
  {
    if Joined(a, b).Some? { TimesCons(Joined(a, b).value, rest, x); }
  }

  lemma CoalesceCounts(e: FragRange, rest: seq<FragRange>, x: int)
    requires Ranges(rest) && e.first <= e.second
    ensures Times(Coalesce(e, rest).list, x) == Times([e] + rest, x)
  {
    TimesCons(e, rest, x);
    if rest != [] && e.second + 1 == rest[0].first {
      JoinCounts(e, rest[0], rest[1..], x);
    }
  }

  // ---- Spacing ----

  /** In order, with a gap between neighbours. */
  ghost predicate Spaced(l: seq<FragRange>) {
    Ranges(l) && forall i, j :: 0 <= i < j < |l| ==> l[i].second + 1 < l[j].first
  }

  ghost predicate Above(l: seq<FragRange>, low: int) {
    forall i :: 0 <= i < |l| ==> low <= l[i].first
  }

  ghost predicate Apart(l: seq<FragRange>, r: FragRange) {
    forall i :: 0 <= i < |l| ==> r.second < l[i].first || l[i].second < r.first
  }

  lemma SpacedCons(e: FragRange, l: seq<FragRange>)
    ensures Spaced([e] + l) <==> e.first <= e.second && Spaced(l) && Above(l, e.second + 2)
    ensures forall low :: Above([e] + l, low) <==> low <= e.first && Above(l, low)
  {
    var m := [e] + l;
    assert m[0] == e && forall i :: 0 <= i < |l| ==> m[i + 1] == l[i];
    assert forall i :: 0 < i < |m| ==> m[i] == l[i - 1];
  }

  lemma PutStep(l: seq<FragRange>, r: FragRange)
    requires l != [] && l[0].first <= r.second + 1 && r.second + 1 != l[0].first && r.first != l[0].second + 1
    ensures Put(l, r) == After(l[0], Put(l[1..], r))
  {
  }

  lemma Alone(r: FragRange, low: int)
    requires low <= r.first <= r.second
    ensures Spaced([r]) && Above([r], low)
  {
  }

  lemma FirstIsLow(l: seq<FragRange>, low: int)
    requires Spaced(l) && l != [] && low <= l[0].first
    ensures Above(l, low)
  {
  }

  lemma Lower(l: seq<FragRange>, high: int, low: int)
    requires Above(l, high) && low <= high
    ensures Above(l, low)
  {
  }

  /** What follows e and does not overlap r, which begins right after e, lies beyond r. */
  lemma RestBeyond(e: FragRange, rest: seq<FragRange>, r: FragRange)
    requires Spaced(rest) && Above(rest, e.second + 2) && Apart([e] + rest, r) && r.first == e.second + 1
    ensures Above(rest, r.second + 1)
  {
    RestApart(e, rest, r);
  }

  lemma RestApart(e: FragRange, rest: seq<FragRange>, r: FragRange)
    requires Apart([e] + rest, r)
    ensures Apart(rest, r) && (r.second < e.first || e.second < r.first)
  {
    var l := [e] + rest;
    assert l[0] == e && forall i :: 0 <= i < |rest| ==> l[i + 1] == rest[i];
  }

  /** Inserting a range that overlaps nothing keeps the list spaced. */
  lemma {:induction false} PutSpaced(l: seq<FragRange>, r: FragRange, low: int)
    requires Spaced(l) && Above(l, low) && r.first <= r.second && low <= r.first && Apart(l, r) && Put(l, r).ok
    ensures Spaced(Put(l, r).list) && Above(Put(l, r).list, low)
    decreases |l|
  {
    hide Spaced, Above, Apart, Coalesce;
    if l == [] {
      Alone(r, low);
    } else {
      var e, rest := l[0], l[1..];
      assert l == [e] + rest;
      SpacedCons(e, rest);
      if r.second + 1 < e.first {
        FirstIsLow(l, r.second + 2);
        SpacedCons(r, l);
        Lower(l, r.second + 2, low);
      } else if r.second + 1 == e.first {
        SpacedCons(Joined(r, e).value, rest);
      } else if r.first == e.second + 1 {
        RestBeyond(e, rest, r);
        CoalesceSpaced(Joined(e, r).value, rest, low);
      } else {
        RestApart(e, rest, r);
        PutStep(l, r);
        PutSpaced(rest, r, e.second + 2);
        SpacedCons(e, Put(rest, r).list);
        Lower(Put(rest, r).list, e.second + 2, low);
      }
    }
  }

  lemma CoalesceSpaced(e: FragRange, rest: seq<FragRange>, low: int)
    requires e.first <= e.second && Spaced(rest) && Above(rest, e.second + 1) && low <= e.first && Coalesce(e, rest).ok
    ensures Spaced(Coalesce(e, rest).list) && Above(Coalesce(e, rest).list, low)
  {
    SpacedCons(e, rest);
    if rest != [] && e.second + 1 == rest[0].first {
      assert rest == [rest[0]] + rest[1..];
      SpacedCons(rest[0], rest[1..]);
      SpacedCons(Joined(e, rest[0]).value, rest[1..]);
    }
  }

  /** A spaced list that holds exactly lo..hi is one range. */
  lemma OneRange(l: seq<FragRange>, lo: nat, hi: nat)
    requires Spaced(l) && lo <= hi && forall x :: 0 < Times(l, x) <==> lo <= x <= hi
    ensures |l| == 1 && l[0].first == lo && l[0].second == hi
  {
    assert 1 < |l| ==> l[0].second + 1 < l[1].first;
    TimesIff(l, lo);
    forall k | 0 <= k < |l| ensures lo <= l[k].first <= l[k].second <= hi {
      TimesIff(l, l[k].first);
      TimesIff(l, l[k].second);
    }
    TimesIff(l, l[0].second + 1);
  }

  // ---- Chunks of a sample ----

  /** e holds the fragments of f that its numbers stand for, the first fragment having number t0. */
  ghost predicate IsChunk(e: FragRange, f: seq<Sample>, base: Header, t0: nat) {
    && t0 <= e.first <= e.second < t0 + |f|
    && JoinOf(e.header, Headers(f)[e.first - t0..e.second - t0 + 1], base)
    && e.payload == Payloads(f[e.first - t0..e.second - t0 + 1])
  }

  ghost predicate Chunks(l: seq<FragRange>, f: seq<Sample>, base: Header, t0: nat) {
    forall i :: 0 <= i < |l| ==> IsChunk(l[i], f, base, t0)
  }

  /** A fragment is a chunk. */
  lemma {:induction false} FragmentIsChunk(f: seq<Sample>, base: Header, t0: nat, i: nat)
    requires Run(Headers(f), base) && i < |f|
    ensures IsChunk(FragRange(t0 + i, t0 + i, f[i].header, f[i].payload), f, base, t0)
  {
    hide JoinOf, Run, Payloads;
    SliceOne(f, i);
    SliceOne(Headers(f), i);
    RunOne(Headers(f), base, i);
    JoinOfOne(f[i].header, base);
    PayloadOne(f[i]);
  }

  lemma SliceOne<T>(s: seq<T>, i: nat)
    requires i < |s|
    ensures s[i..i + 1] == [s[i]]
  {
  }

  lemma RunOne(hs: seq<Header>, base: Header, i: nat)
    requires Run(hs, base) && i < |hs|
    ensures Run([hs[i]], base)
  {
    hide SameSample, Canonical;
  }

  lemma PayloadOne(x: Sample)
    ensures Payloads([x]) == x.payload
  {
    assert [x][1..] == [];
  }

  lemma ChunkInside(e: FragRange, f: seq<Sample>, base: Header, t0: nat)
    requires IsChunk(e, f, base, t0)
    ensures t0 <= e.first <= e.second < t0 + |f|
  {
  }

  lemma {:induction false} PayloadsConcat(a: seq<Sample>, b: seq<Sample>)
    ensures Payloads(a + b) == Payloads(a) + Payloads(b)
  {
    if a == [] {
      assert a + b == b;
    } else {
      assert (a + b)[1..] == a[1..] + b;
      PayloadsConcat(a[1..], b);
    }
  }

  lemma MoreFollow(hs: seq<Header>, base: Header, lo: nat, mid: nat)
    requires Run(hs, base) && lo < mid < |hs|
    ensures hs[lo..mid][|hs[lo..mid]| - 1].flags.moreFragments
  {
    hide SameSample, Canonical;
    assert hs[lo..mid][mid - lo - 1] == hs[mid - 1];
  }

  lemma SlicesMeet<T>(s: seq<T>, lo: nat, mid: nat, hi: nat)
    requires lo <= mid <= hi <= |s|
    ensures s[lo..mid] + s[mid..hi] == s[lo..hi]
  {
  }

  /** Chunks that meet join to a chunk. */
  lemma JoinChunks(a: FragRange, b: FragRange, f: seq<Sample>, base: Header, t0: nat)
    requires Run(Headers(f), base) && IsChunk(a, f, base, t0) && IsChunk(b, f, base, t0) && a.second + 1 == b.first
    ensures Joined(a, b).Some? && IsChunk(Joined(a, b).value, f, base, t0)
  {
    hide JoinOf, Run, Join, Payloads, Headers;
    var hs, lo, mid, hi := Headers(f), a.first - t0, b.first - t0, b.second - t0 + 1;
    MoreFollow(hs, base, lo, mid);
    JoinTwo(a.header, b.header, hs[lo..mid], hs[mid..hi], base);
    SlicesMeet(hs, lo, mid, hi);
    SlicesMeet(f, lo, mid, hi);
    PayloadsConcat(f[lo..mid], f[mid..hi]);
  }

  lemma ChunksCons(e: FragRange, l: seq<FragRange>, f: seq<Sample>, base: Header, t0: nat)
    ensures Chunks([e] + l, f, base, t0) <==> IsChunk(e, f, base, t0) && Chunks(l, f, base, t0)
  {
    hide IsChunk;
    var m := [e] + l;
    assert m[0] == e && forall i :: 0 <= i < |l| ==> m[i + 1] == l[i];
    assert forall i :: 0 < i < |m| ==> m[i] == l[i - 1];
  }

  /** Inserting a chunk among chunks never fails and leaves chunks, whatever overlaps. */
  lemma {:induction false} PutChunks(l: seq<FragRange>, r: FragRange, f: seq<Sample>, base: Header, t0: nat)
    requires Run(Headers(f), base) && Chunks(l, f, base, t0) && IsChunk(r, f, base, t0)
    ensures Put(l, r).ok && Chunks(Put(l, r).list, f, base, t0)
    decreases |l|
  {
    hide IsChunk, Chunks, Run, Joined;
    if l == [] {
      ChunksCons(r, l, f, base, t0);
      assert [r] + l == [r];
    } else {
      var e, rest := l[0], l[1..];
      assert l == [e] + rest;
      ChunksCons(e, rest, f, base, t0);
      ChunksCons(r, l, f, base, t0);
      if r.second + 1 == e.first {
        JoinChunks(r, e, f, base, t0);
        ChunksCons(Joined(r, e).value, rest, f, base, t0);
      } else if r.first == e.second + 1 {
        JoinChunks(e, r, f, base, t0);
        CoalesceChunks(Joined(e, r).value, rest, f, base, t0);
      } else if e.first <= r.second + 1 {
        PutChunks(rest, r, f, base, t0);
        ChunksCons(e, Put(rest, r).list, f, base, t0);
      }
    }
  }

  lemma CoalesceChunks(e: FragRange, rest: seq<FragRange>, f: seq<Sample>, base: Header, t0: nat)
    requires Run(Headers(f), base) && IsChunk(e, f, base, t0) && Chunks(rest, f, base, t0)
    ensures Coalesce(e, rest).ok && Chunks(Coalesce(e, rest).list, f, base, t0)
  {
    hide IsChunk, Chunks, Run, Joined;
    ChunksCons(e, rest, f, base, t0);
    if rest != [] && e.second + 1 == rest[0].first {
      assert rest == [rest[0]] + rest[1..];
      ChunksCons(rest[0], rest[1..], f, base, t0);
      JoinChunks(e, rest[0], f, base, t0);
      ChunksCons(Joined(e, rest[0]).value, rest[1..], f, base, t0);
    }
  }

  // ---- Arrivals of one sample ----

  /** What is kept of a sample that is not complete. */
  datatype Pending = Pending(list: seq<FragRange>, haveFirst: bool)

  datatype Outcome = Outcome(pending: Option<Pending>, delivered: Option<FragRange>)

  /** One arrival for a sample of which p is kept. */
  function Arrive(p: Option<Pending>, r: FragRange, firstFrag: bool): Outcome {
    match p
    case None => Outcome(Some(Pending([r], firstFrag)), None)
    case Some(q) =>
      var m, haveFirst := Put(q.list, r), q.haveFirst || firstFrag;
      if m.ok && haveFirst && |m.list| == 1 && !m.list[0].header.flags.moreFragments
      then Outcome(None, Some(m.list[0]))
      else Outcome(Some(Pending(m.list, haveFirst)), None)
  }

  /** The outcome of the last of the arrivals rs, the first fragment of the sample having number t0. */
  function Arrivals(rs: seq<FragRange>, t0: nat): Outcome {
    if rs == [] then Outcome(None, None)
    else Arrive(Arrivals(rs[..|rs| - 1], t0).pending, rs[|rs| - 1], rs[|rs| - 1].first == t0)
  }

  /** None of the first n arrivals delivered. */
  ghost predicate Undelivered(rs: seq<FragRange>, n: nat, t0: nat)
    requires n <= |rs|
  {
    forall k :: 0 <= k <= n ==> Arrivals(rs[..k], t0).delivered == None
  }

  /** The fragments f are all those of a sample with header base. */
  ghost predicate Fragmented(f: seq<Sample>, base: Header) {
    Run(Headers(f), base) && !Headers(f)[|f| - 1].flags.moreFragments
  }

  /** Every fragment arrived exactly once. */
  ghost predicate Once(rs: seq<FragRange>, f: seq<Sample>, t0: nat) {
    forall x :: t0 <= x < t0 + |f| ==> Times(rs, x) == 1
  }

  ghost predicate AtMostOnce(rs: seq<FragRange>) { forall x :: Times(rs, x) <= 1 }

  /** q keeps exactly the arrivals rs. */
  ghost predicate Keeps(q: Pending, rs: seq<FragRange>, f: seq<Sample>, base: Header, t0: nat) {
    && Chunks(q.list, f, base, t0)
    && (forall x :: Times(q.list, x) == Times(rs, x))
    && (q.haveFirst <==> 0 < Times(rs, t0))
    && (AtMostOnce(rs) ==> Spaced(q.list))
  }

  lemma ChunkRanges(l: seq<FragRange>, f: seq<Sample>, base: Header, t0: nat)
    requires Chunks(l, f, base, t0)
    ensures Ranges(l)
  {
    hide IsChunk;
    forall i | 0 <= i < |l| ensures l[i].first <= l[i].second { ChunkInside(l[i], f, base, t0); }
  }

  lemma TimesInside(l: seq<FragRange>, f: seq<Sample>, base: Header, t0: nat, x: int)
    requires Chunks(l, f, base, t0) && 0 < Times(l, x)
    ensures t0 <= x < t0 + |f|
  {
    hide IsChunk;
    TimesIff(l, x);
    var i :| 0 <= i < |l| && Has(l[i], x);
    ChunkInside(l[i], f, base, t0);
  }

  /** Only the last fragment says that no more follow. */
  lemma WholeEnds(e: FragRange, f: seq<Sample>, base: Header, t0: nat)
    requires Fragmented(f, base) && IsChunk(e, f, base, t0)
    ensures e.header.flags.moreFragments <==> e.second < t0 + |f| - 1
  {
    hide SameSample, Canonical, AnyFilter, TotalLength, AllEntries;
    var hs, lo, hi := Headers(f), e.first - t0, e.second - t0 + 1;
    assert hs[lo..hi][hi - lo - 1] == hs[hi - 1];
  }

  /** One range that starts with the first fragment and expects no more: every fragment is held exactly once. */
  lemma WholeIff(l: seq<FragRange>, f: seq<Sample>, base: Header, t0: nat)
    requires Fragmented(f, base) && f != [] && Chunks(l, f, base, t0) && (AtMostOnce(l) ==> Spaced(l))
    ensures 0 < Times(l, t0) && |l| == 1 && !l[0].header.flags.moreFragments <==> Once(l, f, t0)
    ensures Once(l, f, t0) ==> IsChunk(l[0], f, base, t0) && l[0].first == t0 && l[0].second == t0 + |f| - 1
  {
    hide IsChunk, Fragmented;
    if 0 < Times(l, t0) && |l| == 1 && !l[0].header.flags.moreFragments {
      WholeEnds(l[0], f, base, t0);
      ChunkInside(l[0], f, base, t0);
      assert l == [l[0]] + [];
      forall x { TimesCons(l[0], [], x); }
    }
    if Once(l, f, t0) {
      forall x ensures Times(l, x) <= 1 && (0 < Times(l, x) <==> t0 <= x <= t0 + |f| - 1) {
        if 0 < Times(l, x) { TimesInside(l, f, base, t0, x); }
      }
      OneRange(l, t0, t0 + |f| - 1);
      WholeEnds(l[0], f, base, t0);
    }
  }

  lemma FirstKept(r: FragRange, f: seq<Sample>, base: Header, t0: nat)
    requires IsChunk(r, f, base, t0)
    ensures var o := Arrivals([r], t0);
            o.delivered == None && o.pending.Some? && Keeps(o.pending.value, [r], f, base, t0)
  {
    ChunkInside(r, f, base, t0);
    hide IsChunk;
    assert [r][..0] == [] && [r] + [] == [r];
    TimesCons(r, [], t0);
  }

  /** A chunk that brings nothing a second time overlaps nothing that is kept. */
  lemma KeptApart(q: Pending, rs: seq<FragRange>, r: FragRange, f: seq<Sample>, base: Header, t0: nat)
    requires Keeps(q, rs, f, base, t0) && r.first <= r.second && AtMostOnce(rs + [r])
    ensures AtMostOnce(rs) && Apart(q.list, r)
  {
    hide IsChunk;
    forall x ensures Times(rs, x) <= 1 && (Has(r, x) ==> Times(q.list, x) == 0) { TimesAppend(rs, r, x); }
    forall i | 0 <= i < |q.list| ensures r.second < q.list[i].first || q.list[i].second < r.first {
      TimesIff(q.list, Max(q.list[i].first, r.first));
    }
  }

  lemma PutKeeps(q: Pending, rs: seq<FragRange>, r: FragRange, f: seq<Sample>, base: Header, t0: nat)
    requires Run(Headers(f), base) && Keeps(q, rs, f, base, t0) && IsChunk(r, f, base, t0)
    ensures Put(q.list, r).ok
    ensures Keeps(Pending(Put(q.list, r).list, q.haveFirst || r.first == t0), rs + [r], f, base, t0)
  {
    hide IsChunk, Chunks, Put, Times, Run, Spaced;
    ChunkInside(r, f, base, t0);
    ChunkRanges(q.list, f, base, t0);
    PutChunks(q.list, r, f, base, t0);
    forall x ensures Times(Put(q.list, r).list, x) == Times(rs + [r], x) {
      PutCounts(q.list, r, x);
      TimesAppend(rs, r, x);
    }
    TimesAppend(rs, r, t0);
    if AtMostOnce(rs + [r]) {
      KeptApart(q, rs, r, f, base, t0);
      PutSpaced(q.list, r, 0);
    }
  }

  /** An arrival is kept, unless with it every fragment has arrived exactly once: then the whole is delivered. */
  lemma ArriveKeeps(q: Pending, rs: seq<FragRange>, r: FragRange, f: seq<Sample>, base: Header, t0: nat)
    requires Fragmented(f, base) && Keeps(q, rs, f, base, t0) && IsChunk(r, f, base, t0)
    ensures var o := Arrive(Some(q), r, r.first == t0);
            if Once(rs + [r], f, t0)
            then o.pending == None && o.delivered.Some? && IsWhole(o.delivered.value, f, base, t0)
            else o.delivered == None && o.pending.Some? && Keeps(o.pending.value, rs + [r], f, base, t0)
  {
    hide IsChunk, Chunks, Put, Times, Run, Spaced;
    ChunkInside(r, f, base, t0);
    PutKeeps(q, rs, r, f, base, t0);
    WholeIff(Put(q.list, r).list, f, base, t0);
  }

  /** The chunk of all fragments. */
  ghost predicate IsWhole(d: FragRange, f: seq<Sample>, base: Header, t0: nat) {
    IsChunk(d, f, base, t0) && d.first == t0 && d.second == t0 + |f| - 1
  }

  /** Chunks of a sample, in any order and with any overlap, none of which delivered so far: the last one delivers iff
      it is not the only one and every fragment has now arrived exactly once. */
  lemma {:induction false} DeliveryIff(rs: seq<FragRange>, f: seq<Sample>, base: Header, t0: nat)
    requires Fragmented(f, base) && Chunks(rs, f, base, t0) && rs != [] && Undelivered(rs, |rs| - 1, t0)
    ensures var o := Arrivals(rs, t0);
            if 1 < |rs| && Once(rs, f, t0)
            then o.pending == None && o.delivered.Some? && IsWhole(o.delivered.value, f, base, t0)
            else o.delivered == None && o.pending.Some? && Keeps(o.pending.value, rs, f, base, t0)
    decreases |rs|
  {
    hide IsChunk, Keeps, Fragmented, Arrive, Times, IsWhole, Once;
    var init, r := rs[..|rs| - 1], rs[|rs| - 1];
    assert rs == init + [r];
    if init == [] {
      FirstKept(r, f, base, t0);
      assert rs == [r];
    } else {
      assert forall k :: 0 <= k <= |init| ==> init[..k] == rs[..k];
      assert init[..|init|] == init && Arrivals(init, t0).delivered == None;
      assert Chunks(init, f, base, t0);
      DeliveryIff(init, f, base, t0);
      ArriveKeeps(Arrivals(init, t0).pending.value, init, r, f, base, t0);
    }
  }

  lemma {:induction false} TimesPrefix(rs: seq<FragRange>, ts: seq<FragRange>, x: int)
    ensures Times(rs, x) <= Times(rs + ts, x)
    decreases |ts|
  {
    if ts == [] {
      assert rs + ts == rs;
    } else {
      var init, r := ts[..|ts| - 1], ts[|ts| - 1];
      assert rs + ts == (rs + init) + [r];
      TimesPrefix(rs, init, x);
      TimesAppend(rs + init, r, x);
    }
  }

  /** Before the last chunk something is missing. */
  lemma NotYetOnce(rs: seq<FragRange>, k: nat, f: seq<Sample>, base: Header, t0: nat)
    requires Chunks(rs, f, base, t0) && Once(rs, f, t0) && k < |rs|
    ensures !Once(rs[..k], f, t0)
  {
    hide IsChunk;
    ChunkInside(rs[k], f, base, t0);
    var x := rs[k].first;
    TimesAppend(rs[..k], rs[k], x);
    assert rs == (rs[..k] + [rs[k]]) + rs[k + 1..];
    TimesPrefix(rs[..k] + [rs[k]], rs[k + 1..], x);
  }

  lemma NothingYet(rs: seq<FragRange>, t0: nat)
    ensures Undelivered(rs, 0, t0)
  {
    assert rs[..0] == [];
  }

  /** While fragments are missing or came twice nothing is delivered. */
  lemma {:induction false} NoneDelivered(rs: seq<FragRange>, m: nat, n: nat, f: seq<Sample>, base: Header, t0: nat)
    requires Fragmented(f, base) && Chunks(rs, f, base, t0) && m <= n <= |rs| && Undelivered(rs, m, t0)
    requires forall k :: m < k <= n && 2 <= k ==> !Once(rs[..k], f, t0)
    ensures Undelivered(rs, n, t0)
  {
    hide IsChunk, Fragmented, Arrive, Times, Once, IsWhole, Keeps;
    if m < n {
      NoneDelivered(rs, m, n - 1, f, base, t0);
      var first := rs[..n];
      assert forall k :: 0 <= k <= n ==> first[..k] == rs[..k];
      DeliveryIff(first, f, base, t0);
    }
  }

  /** The payload and the header of s, up to the order of the entries. */
  ghost predicate IsSample(d: FragRange, s: Sample) {
    && d.payload == s.payload
    && d.header.(entries := s.header.entries) == s.header && multiset(d.header.entries) == multiset(s.header.entries)
  }

  lemma WholeJoin(d: FragRange, f: seq<Sample>, base: Header, t0: nat)
    requires IsWhole(d, f, base, t0)
    ensures JoinOf(d.header, Headers(f), base) && d.payload == Payloads(f)
  {
    hide JoinOf, Headers, Payloads;
    WholeSlice(f);
    WholeSlice(Headers(f));
  }

  lemma WholeSlice<T>(s: seq<T>)
    ensures s[0..|s|] == s
  {
  }

  lemma WholeIsSample(d: FragRange, s: Sample, size: nat, t0: nat)
    requires Describes(s) && s.payload != [] && MinFragment(s.header) <= size && !s.header.flags.moreFragments
    requires IsWhole(d, Fragments(s, size), s.header, t0)
    ensures IsSample(d, s)
  {
    hide Fragments, IsWhole;
    FragmentsHoldSample(s, size);
    WholeJoin(d, Fragments(s, size), s.header, t0);
  }

  lemma FragmentsEnd(s: Sample, size: nat)
    requires Describes(s) && s.payload != [] && MinFragment(s.header) <= size && !s.header.flags.moreFragments
    ensures Fragmented(Fragments(s, size), s.header)
  {
    hide Fragments, Run, HoldsContent;
    FragmentsHoldSample(s, size);
  }

  /** The fragments of a sample, cut into two or more chunks that arrive in any order, none twice: only the last arrival
      delivers, it delivers the sample, and nothing stays behind. */
  lemma AnyOrder(rs: seq<FragRange>, s: Sample, size: nat, t0: nat)
    requires Describes(s) && s.payload != [] && MinFragment(s.header) <= size && !s.header.flags.moreFragments
    requires Chunks(rs, Fragments(s, size), s.header, t0) && Once(rs, Fragments(s, size), t0) && 1 < |rs|
    ensures Undelivered(rs, |rs| - 1, t0)
    ensures var o := Arrivals(rs, t0); o.pending == None && o.delivered.Some? && IsSample(o.delivered.value, s)
  {
    hide *;
    var f := Fragments(s, size);
    FragmentsEnd(s, size);
    forall k | 2 <= k <= |rs| - 1 ensures !Once(rs[..k], f, t0) { NotYetOnce(rs, k, f, s.header, t0); }
    assert Undelivered(rs, 0, t0) by { NothingYet(rs, t0); }
    NoneDelivered(rs, 0, |rs| - 1, f, s.header, t0);
    DeliveryIff(rs, f, s.header, t0);
    WholeIsSample(Arrivals(rs, t0).delivered.value, s, size, t0);
  }

  /** A fragment came twice before the sample was complete: the sample is never delivered, whatever else arrives. */
  lemma RepeatStalls(rs: seq<FragRange>, ts: seq<FragRange>, x: nat, s: Sample, size: nat, t0: nat)
    requires Describes(s) && s.payload != [] && MinFragment(s.header) <= size && !s.header.flags.moreFragments
    requires Chunks(rs + ts, Fragments(s, size), s.header, t0) && Undelivered(rs, |rs|, t0) && 1 < Times(rs, x)
    ensures Undelivered(rs + ts, |rs + ts|, t0)
  {
    hide *;
    var all, f := rs + ts, Fragments(s, size);
    FragmentsEnd(s, size);
    forall k | |rs| < k <= |all| && 2 <= k ensures !Once(all[..k], f, t0) {
      HeldTwice(rs, ts[..k - |rs|], x, all, f, s.header, t0);
      assert all[..k] == rs + ts[..k - |rs|];
    }
    assert Undelivered(all, |rs|, t0) by { SamePrefix(rs, ts, t0); }
    NoneDelivered(all, |rs|, |all|, f, s.header, t0);
  }

  lemma SamePrefix(rs: seq<FragRange>, ts: seq<FragRange>, t0: nat)
    requires Undelivered(rs, |rs|, t0)
    ensures Undelivered(rs + ts, |rs|, t0)
  {
    hide Arrivals;
    assert forall k :: 0 <= k <= |rs| ==> (rs + ts)[..k] == rs[..k];
  }

  lemma HeldTwice(rs: seq<FragRange>, ts: seq<FragRange>, x: nat, all: seq<FragRange>,
                  f: seq<Sample>, base: Header, t0: nat)
    requires 1 < Times(rs, x) && rs + ts <= all && Chunks(all, f, base, t0)
    ensures !Once(rs + ts, f, t0)
  {
    hide IsChunk;
    TimesPrefix(rs, ts, x);
    var l := rs + ts;
    assert forall i :: 0 <= i < |l| ==> l[i] == all[i];
    TimesInside(l, f, base, t0, x);
  }

  // ---- The loop over the list ----

  method JoinRanges(a: FragRange, b: FragRange) returns (j: Option<FragRange>)
    ensures j == Joined(a, b)
  {
    var ok, h := JoinHeaders(a.header, b.header);
    j := if ok then Some(FragRange(a.first, b.second, h, a.payload + b.payload)) else None;
  }

  lemma ConcatAssociates<T>(a: seq<T>, b: seq<T>, c: seq<T>)
    ensures a + (b + c) == a + b + c
  {
  }

  lemma PutSkips(l: seq<FragRange>, i: nat, r: FragRange)
    requires i < |l| && l[i].first <= r.second + 1
    requires r.second + 1 != l[i].first && r.first != l[i].second + 1
    requires Put(l, r) == Inserted(Put(l[i..], r).ok, l[..i] + Put(l[i..], r).list)
    ensures Put(l, r) == Inserted(Put(l[i + 1..], r).ok, l[..i + 1] + Put(l[i + 1..], r).list)
  {
    hide Put;
    PutStep(l[i..], r);
    assert l[i..][1..] == l[i + 1..] && l[..i + 1] == l[..i] + [l[i]];
    ConcatAssociates(l[..i], [l[i]], Put(l[i + 1..], r).list);
  }

  /** Walks the list until r fits. */
  method Insert(flist: seq<FragRange>, r: FragRange) returns (ok: bool, list: seq<FragRange>)
    ensures Inserted(ok, list) == Put(flist, r)
  {
    hide Joined, Coalesce;
    var i := 0;
    while i < |flist|
      invariant 0 <= i <= |flist|
      invariant Put(flist, r) == Inserted(Put(flist[i..], r).ok, flist[..i] + Put(flist[i..], r).list)
    {
      var e := flist[i];
      assert flist[i..][0] == e && flist[i..][1..] == flist[i + 1..];
      if r.second + 1 < e.first {
        assert [r] + flist[i..] == Put(flist[i..], r).list;
        return true, flist[..i] + ([r] + flist[i..]);
      } else if r.second + 1 == e.first {
        // combine on the left of e
        var j := JoinRanges(r, e);
        if j == None {
          assert flist == flist[..i] + flist[i..];
          return false, flist;
        }
        return true, flist[..i] + ([j.value] + flist[i + 1..]);
      } else if r.first == e.second + 1 {
        // combine on the right of e
        var j := JoinRanges(e, r);
        if j == None {
          assert flist == flist[..i] + flist[i..];
          return false, flist;
        }
        var m := CoalesceNext(j.value, flist[i + 1..]);
        return m.ok, flist[..i] + m.list;
      }
      PutSkips(flist, i, r);
      i := i + 1;
    }
    assert flist[i..] == [] && flist[..i] == flist;
    return true, flist + [r];
  }

  /** The range that follows may have to be combined too. */
  method CoalesceNext(e: FragRange, rest: seq<FragRange>) returns (m: Inserted)
    ensures m == Coalesce(e, rest)
  {
    if rest != [] && e.second + 1 == rest[0].first {
      var j := JoinRanges(e, rest[0]);
      if j == None { return Inserted(false, [e] + rest); }
      return Inserted(true, [j.value] + rest[1..]);
    }
    return Inserted(true, [e] + rest);
  }
}
