/** What publication_matched_status counts, over every run of association callbacks and removals. */
module AssociationCounts {
  import opened AssociationHandshake

  /** The step completes a reader that was not associated. */
  predicate NewlyMatched(s: State, e: Event) {
    match e
    case TransportDone(r) => r in s.assocComplete && r !in s.readers
    case AssociationComplete(r) => r in s.pending && r !in s.readers
    case Remove(_) => false
  }

  /** Some of these readers are associated. */
  predicate AnyAssociated(readers: set<ReaderId>, rs: seq<ReaderId>) { exists i :: 0 <= i < |rs| && rs[i] in readers }

  /** A newly matched reader is counted, and the status names it; any other callback leaves the status alone. */
  lemma CallbackStatus(s: State, e: Event, env: Env)
    requires Consistent(s) && !e.Remove?
    ensures var t, u := Step(s, e, env).status, s.status;
            if !NewlyMatched(s, e) then t == u
            else && t.totalCount == u.totalCount + 1 && t.currentCount == u.currentCount + 1
                 && t.lastHandle == env.handleOf(e.r)
                 && t.totalChange == (if env.matchedListener then 0 else u.totalChange + 1)
                 && t.currentChange == (if env.matchedListener then 0 else u.currentChange + 1)
  {
  }

  ghost predicate Before(rs: seq<ReaderId>, r: ReaderId, k: nat) { exists i :: 0 <= i < k && i < |rs| && rs[i] == r }

  /** r is associated, named in rs, and every associated reader named after its first place was named before. */
  ghost predicate NamedLast(readers: set<ReaderId>, rs: seq<ReaderId>, r: ReaderId, k: nat) {
    && k < |rs| && rs[k] == r && r in readers && !Before(rs, r, k)
    && forall j :: k < j < |rs| && rs[j] in readers ==> Before(rs, rs[j], j)
  }

  lemma BeforeTail(rs: seq<ReaderId>, r: ReaderId, k: nat)
    requires rs != []
    ensures Before(rs, r, k + 1) <==> rs[0] == r || Before(rs[1..], r, k)
  {
    if Before(rs[1..], r, k) {
      var i :| 0 <= i < k && i < |rs[1..]| && rs[1..][i] == r;
      assert rs[i + 1] == r;
    }
    if Before(rs, r, k + 1) {
      var i :| 0 <= i < k + 1 && i < |rs| && rs[i] == r;
      assert 0 < i ==> rs[1..][i - 1] == r;
    }
  }

  lemma {:induction false} LastAssociated(readers: set<ReaderId>, rs: seq<ReaderId>) returns (k: nat)
    requires FullyAssociated(readers, rs) != []
    ensures var f := FullyAssociated(readers, rs); NamedLast(readers, rs, f[|f| - 1], k)
    decreases |rs|
  {
    var rest := rs[1..];
    var fewer := if rs[0] in readers then readers - {rs[0]} else readers;
    if FullyAssociated(fewer, rest) == [] {
      k := 0;
      forall j | 0 < j < |rs| && rs[j] in readers ensures Before(rs, rs[j], j) {
        assert rs[j] == rest[j - 1] && rest[j - 1] in rest;
        assert rs[0] == rs[j];
      }
    } else {
      k := LastAssociated(fewer, rest);
      FirstAdded(readers, rs, k);
      k := k + 1;
    }
  }

  lemma FirstAdded(readers: set<ReaderId>, rs: seq<ReaderId>, m: nat)
    requires rs != []
    requires var fewer := if rs[0] in readers then readers - {rs[0]} else readers;
             m < |rs[1..]| && NamedLast(fewer, rs[1..], rs[1..][m], m)
    ensures NamedLast(readers, rs, rs[1..][m], m + 1)
  {
    var rest := rs[1..];
    BeforeTail(rs, rest[m], m);
    forall j | m + 1 < j < |rs| && rs[j] in readers ensures Before(rs, rs[j], j) {
      assert rs[j] == rest[j - 1];
      BeforeTail(rs, rs[j], j - 1);
    }
  }

  /** From status u to t: those of rs that were associated with s have gone. */
  ghost predicate Uncounted(u: MatchStatus, t: MatchStatus, readers: set<ReaderId>, rs: seq<ReaderId>, env: Env) {
    && t.totalCount == u.totalCount && t.currentCount == |readers - (set r | r in rs)|
    && if !AnyAssociated(readers, rs) then t == u.(currentChange := 0)
       else && (exists r, k :: NamedLast(readers, rs, r, k) && t.lastHandle == env.handleOf(r))
            && t.totalChange == (if env.unmatchedListener then 0 else u.totalChange)
            && t.currentChange == if env.unmatchedListener then 0 else t.currentCount - u.currentCount
  }

  lemma KeptCount(s: State, rs: seq<ReaderId>)
    requires Consistent(s)
    ensures var full := FullyAssociated(s.readers, rs);
            && |s.handles - (set r | r in full)| == |s.readers - (set r | r in rs)|
            && (full != [] <==> AnyAssociated(s.readers, rs))
  {
    hide FullyAssociated;
    var full := FullyAssociated(s.readers, rs);
    var kept := s.handles - (set r | r in full);
    assert kept.Keys == s.readers - (set r | r in rs) && |kept| == |kept.Keys|;
    if full != [] {
      assert full[0] in full && full[0] in rs;
    } else {
      assert forall i :: 0 <= i < |rs| ==> rs[i] in rs && rs[i] !in full;
    }
  }

  lemma StatusAfter(s: State, rs: seq<ReaderId>, env: Env)
    requires rs != []
    ensures var full := FullyAssociated(s.readers, rs);
            Step(s, Remove(rs), env).status == Unmatched(s.status, |s.handles - (set r | r in full)|, full, env)
  {
    hide FullyAssociated, PendingAfter, Unmatched;
  }

  /** A removal counts the readers that are left. If somebody associated went, the status names the last of them that
      rs names, and the listener, if any, consumes the changes; otherwise only the current change is forgotten. */
  lemma RemovalStatus(s: State, rs: seq<ReaderId>, env: Env)
    requires Consistent(s) && rs != []
    ensures Uncounted(s.status, Step(s, Remove(rs), env).status, s.readers, rs, env)
  {
    hide Step, FullyAssociated, Consistent, AnyAssociated, NamedLast, Unmatched, Uncounted;
    var full := FullyAssociated(s.readers, rs);
    StatusAfter(s, rs, env);
    KeptCount(s, rs);
    RemovalChangesCount(s, rs);
    var k := 0;
    if full != [] { k := LastAssociated(s.readers, rs); }
    UncountedBy(s.status, s.readers, rs, env, full, k);
  }

  lemma UncountedBy(u: MatchStatus, readers: set<ReaderId>, rs: seq<ReaderId>, env: Env, full: seq<ReaderId>, k: nat)
    requires full != [] <==> AnyAssociated(readers, rs)
    requires full != [] ==> NamedLast(readers, rs, full[|full| - 1], k)
    requires |readers - (set r | r in rs)| != u.currentCount <==> full != []
    ensures Uncounted(u, Unmatched(u, |readers - (set r | r in rs)|, full, env), readers, rs, env)
  {
    hide AnyAssociated, NamedLast;
    if full != [] { assert NamedLast(readers, rs, full[|full| - 1], k); }
  }

  /** rs names r where r is not, or no longer, associated. */
  ghost predicate NamedUnassociated(readers: set<ReaderId>, rs: seq<ReaderId>, r: ReaderId) {
    exists i :: 0 <= i < |rs| && rs[i] == r && (r !in readers || Before(rs, r, i))
  }

  lemma {:induction false} PendingIff(pending: set<ReaderId>, readers: set<ReaderId>, rs: seq<ReaderId>, r: ReaderId)
    ensures r in PendingAfter(pending, readers, rs) <==> r in pending && !NamedUnassociated(readers, rs, r)
    decreases |rs|
  {
    if rs != [] {
      var fewer := if rs[0] in readers then readers - {rs[0]} else readers;
      PendingIff(if rs[0] in readers then pending else pending - {rs[0]}, fewer, rs[1..], r);
      NamedTail(readers, rs, r);
    }
  }

  lemma NamedTail(readers: set<ReaderId>, rs: seq<ReaderId>, r: ReaderId)
    requires rs != []
    ensures var fewer := if rs[0] in readers then readers - {rs[0]} else readers;
            NamedUnassociated(readers, rs, r) <==>
            (rs[0] == r && r !in readers) || NamedUnassociated(fewer, rs[1..], r)
  {
    var fewer, rest := if rs[0] in readers then readers - {rs[0]} else readers, rs[1..];
    if NamedUnassociated(readers, rs, r) {
      var i :| 0 <= i < |rs| && rs[i] == r && (r !in readers || Before(rs, r, i));
      if 0 < i {
        BeforeTail(rs, r, i - 1);
        assert rest[i - 1] == r;
      }
    }
    if NamedUnassociated(fewer, rest, r) {
      var i :| 0 <= i < |rest| && rest[i] == r && (r !in fewer || Before(rest, r, i));
      BeforeTail(rs, r, i);
      assert rs[i + 1] == r;
    }
  }

  /** What a removal leaves of the three sets: associated readers that are not named, pending ones that are not named
      where they are not associated, and every stored association_complete. */
  lemma RemovalLeaves(s: State, rs: seq<ReaderId>, env: Env, r: ReaderId)
    requires Consistent(s) && rs != []
    ensures var t := Step(s, Remove(rs), env);
            && (r in t.readers <==> r in s.readers && r !in rs)
            && (r in t.pending <==> r in s.pending && !NamedUnassociated(s.readers, rs, r))
            && (r in t.assocComplete <==> r in s.assocComplete)
  {
    PendingIff(s.pending, s.readers, rs, r);
    hide PendingAfter, FullyAssociated, NamedUnassociated;
  }

  // ---- Whole runs ----

  /** How many steps of the run newly match a reader. */
  function Matches(s: State, es: seq<Event>, env: Env): nat
    decreases |es|
  {
    if es == [] then 0
    else (if NewlyMatched(s, es[0]) then 1 else 0) + Matches(Step(s, es[0], env), es[1..], env)
  }

  /** The counts when a listener was last told, and the current count that the current change is measured from. */
  datatype Told = Told(total: int, current: int, base: int)

  function ToldAfter(s: State, e: Event, env: Env, told: Told): Told {
    var t := Step(s, e, env).status;
    if NewlyMatched(s, e) then
      if env.matchedListener then Told(t.totalCount, t.currentCount, t.currentCount) else told
    else if e.Remove? && e.rs != [] then
      if AnyAssociated(s.readers, e.rs) && env.unmatchedListener then Told(t.totalCount, t.currentCount, t.currentCount)
      else told.(base := s.status.currentCount)
    else told
  }

  function ToldBy(s: State, es: seq<Event>, env: Env, told: Told): Told
    decreases |es|
  {
    if es == [] then told else ToldBy(Step(s, es[0], env), es[1..], env, ToldAfter(s, es[0], env, told))
  }

  ghost predicate Accounts(status: MatchStatus, told: Told) {
    && status.totalChange == status.totalCount - told.total
    && status.currentChange == status.currentCount - told.base
  }

  lemma RemovalAccounts(s: State, rs: seq<ReaderId>, env: Env, told: Told)
    requires Consistent(s) && Accounts(s.status, told) && rs != []
    ensures Accounts(Step(s, Remove(rs), env).status, ToldAfter(s, Remove(rs), env, told))
    ensures Step(s, Remove(rs), env).status.totalCount == s.status.totalCount
  {
    hide Step;
    RemovalStatus(s, rs, env);
    if !AnyAssociated(s.readers, rs) {
      assert forall r <- rs :: r !in s.readers;
      assert s.readers - (set r | r in rs) == s.readers;
    }
  }

  lemma StepAccounts(s: State, e: Event, env: Env, told: Told)
    requires Consistent(s) && Accounts(s.status, told)
    ensures Accounts(Step(s, e, env).status, ToldAfter(s, e, env, told))
    ensures Step(s, e, env).status.totalCount == s.status.totalCount + if NewlyMatched(s, e) then 1 else 0
  {
    if !e.Remove? {
      CallbackStatus(s, e, env);
      hide Step;
    } else if e.rs != [] {
      RemovalAccounts(s, e.rs, env, told);
      hide Step, ToldAfter;
    }
  }

  /** In every run the total count is the number of readers newly matched, the total change is the difference from the
      last time a listener was told, and the current change is so iff the count it is measured from is the one last
      told. It is measured from there unless a removal came since, which restarts it. */
  lemma {:induction false} StatusOfRun(s: State, es: seq<Event>, env: Env, told: Told)
    requires Consistent(s) && Accounts(s.status, told)
    ensures var t, now := Run(s, es, env).status, ToldBy(s, es, env, told);
            && t.totalCount == s.status.totalCount + Matches(s, es, env)
            && t.totalChange == t.totalCount - now.total
            && t.currentChange == t.currentCount - now.base
            && (t.currentChange == t.currentCount - now.current <==> now.base == now.current)
    decreases |es|
  {
    hide Step, NewlyMatched, ToldAfter;
    if es != [] {
      StepConsistent(s, es[0], env);
      StepAccounts(s, es[0], env, told);
      StatusOfRun(Step(s, es[0], env), es[1..], env, ToldAfter(s, es[0], env, told));
    }
  }

  /** Every handle kept is the participant's handle of that reader, in every run. */
  lemma {:induction false} HandlesOfRun(s: State, es: seq<Event>, env: Env)
    requires forall r <- s.handles :: s.handles[r] == env.handleOf(r)
    ensures forall r <- Run(s, es, env).handles :: Run(s, es, env).handles[r] == env.handleOf(r)
    decreases |es|
  {
    hide FullyAssociated, PendingAfter, Unmatched;
    if es != [] { HandlesOfRun(Step(s, es[0], env), es[1..], env); }
  }

  /** Without listeners: a match, then the removal of somebody unknown, and the match is no longer among the changes. */
  lemma ForgottenChange(r: ReaderId, other: ReaderId, env: Env)
    requires r != other && !env.matchedListener && !env.unmatchedListener
    ensures var t := Run(INITIAL, [TransportDone(r), AssociationComplete(r), Remove([other])], env).status;
            t.currentCount == 1 && t.totalChange == 1 && t.currentChange == 0
  {
    var es := [TransportDone(r), AssociationComplete(r), Remove([other])];
    TwoCallbacks(r, env);
    hide Step, Consistent, Uncounted;
    ThreeSteps(INITIAL, es, env);
    var s2 := Step(Step(INITIAL, es[0], env), es[1], env);
    RemovalStatus(s2, [other], env);
    NobodyGone(s2.status, Step(s2, es[2], env).status, r, other, env);
  }

  lemma ThreeSteps(s: State, es: seq<Event>, env: Env)
    requires |es| == 3
    ensures Run(s, es, env) == Step(Step(Step(s, es[0], env), es[1], env), es[2], env)
  {
    hide Step;
    assert es[1..][1..] == [es[2]] && [es[2]][1..] == [];
    assert Run(s, es, env) == Run(Step(Step(s, es[0], env), es[1], env), [es[2]], env);
  }

  lemma NobodyGone(u: MatchStatus, t: MatchStatus, r: ReaderId, other: ReaderId, env: Env)
    requires r != other && Uncounted(u, t, {r}, [other], env)
    ensures t.currentCount == 1 && t.totalChange == u.totalChange && t.currentChange == 0
  {
    assert [other][0] == other;
    assert {r} - (set x | x in [other]) == {r};
  }

  lemma TwoCallbacks(r: ReaderId, env: Env)
    requires !env.matchedListener
    ensures var t := Step(Step(INITIAL, TransportDone(r), env), AssociationComplete(r), env);
            Consistent(t) && t.readers == {r} && t.status.totalChange == 1
  {
    StepConsistent(INITIAL, TransportDone(r), env);
    StepConsistent(Step(INITIAL, TransportDone(r), env), AssociationComplete(r), env);
  }
}
