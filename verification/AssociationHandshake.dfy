/** DataWriterImpl: completing an association takes two callbacks, transport_assoc_done and association_complete, that
    may come in either order. For a writer that is not built-in, with a live participant; each callback is one step. */
module AssociationHandshake {

  type ReaderId = nat
  type Handle = int

  datatype MatchStatus =
    MatchStatus(totalCount: int, totalChange: int, currentCount: int, currentChange: int, lastHandle: Handle)

  datatype State = State(
    pending: set<ReaderId>,          // pending_readers_: transport done, waiting for association_complete
    assocComplete: set<ReaderId>,    // assoc_complete_readers_: the other way round
    readers: set<ReaderId>,          // readers_
    handles: map<ReaderId, Handle>,  // id_to_handle_map_
    status: MatchStatus)

  datatype Event =
    | TransportDone(r: ReaderId)
    | AssociationComplete(r: ReaderId)
    | Remove(rs: seq<ReaderId>)

  /** DomainParticipantImpl::id_to_handle, and whether there is a listener for PUBLICATION_MATCHED_STATUS and for
      SUBSCRIPTION_MATCHED_STATUS. */
  datatype Env = Env(handleOf: ReaderId -> Handle, matchedListener: bool, unmatchedListener: bool)

  const INITIAL := State({}, {}, {}, map[], MatchStatus(0, 0, 0, 0, 0))

  /** What every step keeps. */
  ghost predicate Consistent(s: State) {
    && s.pending !! s.assocComplete
    && s.handles.Keys == s.readers
    && s.status.currentCount == |s.handles|
  }

  // ---- Specification of the steps ----

  /** A listener that is told the status consumes the changes. */
  function Told(status: MatchStatus, listener: bool): MatchStatus {
    if listener then status.(totalChange := 0, currentChange := 0) else status
  }

  function Matched(status: MatchStatus, handle: Handle): MatchStatus {
    MatchStatus(status.totalCount + 1, status.totalChange + 1,
                status.currentCount + 1, status.currentChange + 1, handle)
  }

  /** association_complete_i. */
  function Complete(s: State, r: ReaderId, env: Env): State {
    if r in s.handles then s.(readers := s.readers + {r}) // binding an id twice fails and leaves the status alone
    else s.(readers := s.readers + {r}, handles := s.handles[r := env.handleOf(r)],
            status := Told(Matched(s.status, env.handleOf(r)), env.matchedListener))
  }

  /** The status when `count` readers are left after the fully associated readers in `full` went; the change is not
      accumulated, and the listener asked is the one for SUBSCRIPTION_MATCHED_STATUS. */
  function Unmatched(status: MatchStatus, count: nat, full: seq<ReaderId>, env: Env): MatchStatus {
    var change := count - status.currentCount;
    if change == 0 || full == [] then status.(currentChange := change)
    else
      Told(status.(currentChange := change, currentCount := count, lastHandle := env.handleOf(full[|full| - 1])),
           env.unmatchedListener)
  }

  /** The readers among rs that were fully associated, in order; an id that comes twice counts once. */
  function FullyAssociated(readers: set<ReaderId>, rs: seq<ReaderId>): (f: seq<ReaderId>)
    ensures forall r :: r in f <==> r in rs && r in readers
  {
    if rs == [] then []
    else if rs[0] in readers then [rs[0]] + FullyAssociated(readers - {rs[0]}, rs[1..])
    else FullyAssociated(readers, rs[1..])
  }

  /** pending_readers_ loses the ids of rs that are not (or no longer) fully associated. */
  function PendingAfter(pending: set<ReaderId>, readers: set<ReaderId>, rs: seq<ReaderId>): set<ReaderId> {
    if rs == [] then pending
    else if rs[0] in readers then PendingAfter(pending, readers - {rs[0]}, rs[1..])
    else PendingAfter(pending - {rs[0]}, readers, rs[1..])
  }

  function Removed(s: State, rs: seq<ReaderId>, env: Env): State {
    var full := FullyAssociated(s.readers, rs);
    var kept := s.handles - (set r | r in full);
    s.(pending := PendingAfter(s.pending, s.readers, rs), readers := s.readers - (set r | r in rs), handles := kept,
       status := Unmatched(s.status, |kept|, full, env))
  }

  function Step(s: State, e: Event, env: Env): State {
    match e
    case TransportDone(r) =>
      if r in s.assocComplete then Complete(s.(assocComplete := s.assocComplete - {r}), r, env)
      else s.(pending := s.pending + {r})
    case AssociationComplete(r) =>
      if r in s.pending then Complete(s.(pending := s.pending - {r}), r, env)
      else s.(assocComplete := s.assocComplete + {r})
    case Remove(rs) => if rs == [] then s else Removed(s, rs, env)
  }

  function Run(s: State, es: seq<Event>, env: Env): State
    decreases |es|
  {
    if es == [] then s else Run(Step(s, es[0], env), es[1..], env)
  }

  // ---- Invariants over every run ----

  lemma {:induction false} PendingShrinks(pending: set<ReaderId>, readers: set<ReaderId>, rs: seq<ReaderId>,
                                          r: ReaderId)
    ensures PendingAfter(pending, readers, rs) <= pending
    ensures r !in rs && r in pending ==> r in PendingAfter(pending, readers, rs)
  {
    if rs != [] {
      if rs[0] in readers { PendingShrinks(pending, readers - {rs[0]}, rs[1..], r); }
      else { PendingShrinks(pending - {rs[0]}, readers, rs[1..], r); }
    }
  }

  /** Removing keys that are there shrinks the map by their number; the count changes iff somebody was fully associated,
      so the index of the last handle is in range whenever it is used. */
  lemma RemovalChangesCount(s: State, rs: seq<ReaderId>)
    requires Consistent(s)
    ensures var full := FullyAssociated(s.readers, rs);
            |s.handles - (set r | r in full)| != s.status.currentCount <==> full != []
  {
    var full := FullyAssociated(s.readers, rs);
    var gone := set r | r in full;
    var kept := s.handles - gone;
    assert kept.Keys == s.handles.Keys - gone;
    if full != [] {
      assert full[0] in gone && gone <= s.handles.Keys;
      assert |s.handles.Keys - gone| == |s.handles.Keys| - |gone|;
      assert |gone| > 0;
    } else {
      assert kept == s.handles;
    }
  }

  lemma CompleteConsistent(s: State, r: ReaderId, env: Env)
    requires Consistent(s)
    ensures Consistent(Complete(s, r, env))
  {
  }

  lemma RemovedConsistent(s: State, rs: seq<ReaderId>, env: Env)
    requires Consistent(s)
    ensures Consistent(Removed(s, rs, env))
  {
    RemovalChangesCount(s, rs);
    PendingShrinks(s.pending, s.readers, rs, 0);
    hide FullyAssociated, PendingAfter;
    var full := FullyAssociated(s.readers, rs);
    assert (s.handles - (set r | r in full)).Keys == s.readers - (set r | r in rs);
  }

  lemma StepConsistent(s: State, e: Event, env: Env)
    requires Consistent(s)
    ensures Consistent(Step(s, e, env))
  {
    hide Complete, Removed;
    match e
    case TransportDone(r) =>
      if r in s.assocComplete { CompleteConsistent(s.(assocComplete := s.assocComplete - {r}), r, env); }
    case AssociationComplete(r) =>
      if r in s.pending { CompleteConsistent(s.(pending := s.pending - {r}), r, env); }
    case Remove(rs) =>
      RemovedConsistent(s, rs, env);
  }

  lemma {:induction false} RunConsistent(s: State, es: seq<Event>, env: Env)
    requires Consistent(s)
    ensures Consistent(Run(s, es, env))
    decreases |es|
  {
    if es != [] {
      StepConsistent(s, es[0], env);
      RunConsistent(Step(s, es[0], env), es[1..], env);
    }
  }

  // ---- Exactly one completion ----

  /** The step calls association_complete_i for r. */
  predicate Completes(s: State, e: Event, r: ReaderId) {
    (e == TransportDone(r) && r in s.assocComplete) || (e == AssociationComplete(r) && r in s.pending)
  }

  function Completions(s: State, es: seq<Event>, r: ReaderId, env: Env): nat
    decreases |es|
  {
    if es == [] then 0
    else (if Completes(s, es[0], r) then 1 else 0) + Completions(Step(s, es[0], env), es[1..], r, env)
  }

  function Occurrences(es: seq<Event>, e: Event): nat {
    if es == [] then 0 else (if es[0] == e then 1 else 0) + Occurrences(es[1..], e)
  }

  ghost predicate NeverRemoved(es: seq<Event>, r: ReaderId) {
    forall i :: 0 <= i < |es| && es[i].Remove? ==> r !in es[i].rs
  }

  function AsNat(b: bool): nat { if b then 1 else 0 }

  /** r is waiting on exactly the sides given, and is associated as given. */
  ghost predicate At(s: State, r: ReaderId, pending: bool, assoc: bool, associated: bool) {
    (r in s.pending <==> pending) && (r in s.assocComplete <==> assoc) && (r in s.readers <==> associated)
  }

  lemma OtherStep(s: State, e: Event, r: ReaderId, env: Env)
    requires Consistent(s) && e != TransportDone(r) && e != AssociationComplete(r) && (e.Remove? ==> r !in e.rs)
    ensures var t := Step(s, e, env);
            At(t, r, r in s.pending, r in s.assocComplete, r in s.readers) && !Completes(s, e, r)
  {
    if e.Remove? { PendingShrinks(s.pending, s.readers, e.rs, r); }
  }

  /** From a state where r is new, one callback of each kind, in either order and with anything about other readers in
      between, completes r exactly once; a single one leaves it waiting on the other. */
  lemma {:induction false} ExactlyOnce(s: State, es: seq<Event>, r: ReaderId, env: Env,
                                       p: bool, a: bool)
    requires Consistent(s) && NeverRemoved(es, r)
    requires At(s, r, p, a, false) && !(p && a)
    requires AsNat(p) + Occurrences(es, TransportDone(r)) <= 1
    requires AsNat(a) + Occurrences(es, AssociationComplete(r)) <= 1
    ensures var t := AsNat(p) + Occurrences(es, TransportDone(r));
            var c := AsNat(a) + Occurrences(es, AssociationComplete(r));
            && Completions(s, es, r, env) == (if t == 1 && c == 1 then 1 else 0)
            && At(Run(s, es, env), r, t == 1 && c == 0, c == 1 && t == 0, t == 1 && c == 1)
    decreases |es|
  {
    if es != [] {
      var e, rest := es[0], es[1..];
      assert NeverRemoved(rest, r);
      var next := Step(s, e, env);
      StepConsistent(s, e, env);
      if e == TransportDone(r) {
        if a { AssociatedStays(next, rest, r, env); } else { ExactlyOnce(next, rest, r, env, true, false); }
      } else if e == AssociationComplete(r) {
        if p { AssociatedStays(next, rest, r, env); } else { ExactlyOnce(next, rest, r, env, false, true); }
      } else {
        OtherStep(s, e, r, env);
        ExactlyOnce(next, rest, r, env, p, a);
      }
    }
  }

  lemma {:induction false} AssociatedStays(s: State, es: seq<Event>, r: ReaderId, env: Env)
    requires Consistent(s) && NeverRemoved(es, r) && At(s, r, false, false, true)
    requires Occurrences(es, TransportDone(r)) == 0 && Occurrences(es, AssociationComplete(r)) == 0
    ensures Completions(s, es, r, env) == 0 && At(Run(s, es, env), r, false, false, true)
    decreases |es|
  {
    if es != [] {
      var rest := es[1..];
      assert NeverRemoved(rest, r);
      StepConsistent(s, es[0], env);
      OtherStep(s, es[0], r, env);
      AssociatedStays(Step(s, es[0], env), rest, r, env);
    }
  }

  /** One step: every completion uses up a waiting side or the callback itself. */
  lemma CallbacksUsedUp(s: State, e: Event, r: ReaderId, env: Env)
    requires Consistent(s)
    ensures var t := Step(s, e, env);
            && AsNat(r in t.pending) + AsNat(Completes(s, e, r)) <= AsNat(r in s.pending) + AsNat(e == TransportDone(r))
            && AsNat(r in t.assocComplete) + AsNat(Completes(s, e, r))
               <= AsNat(r in s.assocComplete) + AsNat(e == AssociationComplete(r))
  {
    hide FullyAssociated, PendingAfter;
    if e.Remove? { PendingShrinks(s.pending, s.readers, e.rs, r); }
  }

  /** In every run, removals included, r completes at most as often as each callback has come. */
  lemma {:induction false} NeverWithoutBoth(s: State, es: seq<Event>, r: ReaderId, env: Env)
    requires Consistent(s)
    ensures Completions(s, es, r, env) <= AsNat(r in s.pending) + Occurrences(es, TransportDone(r))
    ensures Completions(s, es, r, env) <= AsNat(r in s.assocComplete) + Occurrences(es, AssociationComplete(r))
    decreases |es|
  {
    hide Step, Consistent;
    if es != [] {
      StepConsistent(s, es[0], env);
      CallbacksUsedUp(s, es[0], r, env);
      NeverWithoutBoth(Step(s, es[0], env), es[1..], r, env);
    }
  }

  /** Removing r makes the writer forget it iff no association_complete is stored for it and it is not both associated
      and pending. */
  lemma RemovalForgets(s: State, r: ReaderId, env: Env)
    requires Consistent(s)
    ensures At(Step(s, Remove([r]), env), r, false, false, false)
            <==> r !in s.assocComplete && !(r in s.readers && r in s.pending)
  {
    assert [r][0] == r && [r][1..] == [];
    assert PendingAfter(s.pending, s.readers, [r]) == (if r in s.readers then s.pending else s.pending - {r});
  }

  /** What is not forgotten takes effect later: this reader is completed although it was removed after its only
      association_complete. Removal also stops the association in progress at the transport, so the transport_assoc_done
      that follows belongs to a new association of the same reader, or was already on its way. */
  lemma StaleCompletion(r: ReaderId, env: Env)
    ensures Completions(INITIAL, [AssociationComplete(r), Remove([r]), TransportDone(r)], r, env) == 1
  {
    var es := [AssociationComplete(r), Remove([r]), TransportDone(r)];
    var s1 := Step(INITIAL, es[0], env);
    var s2 := Step(s1, es[1], env);
    assert r in s2.assocComplete;
    assert es[1..][0] == es[1] && es[1..][1..] == es[2..] && es[2..][0] == es[2] && es[2..][1..] == [];
    assert Completions(s2, es[2..], r, env) == 1;
  }

  // ---- The writer ----

  class DataWriter {
    var pendingReaders: set<ReaderId>
    var assocCompleteReaders: set<ReaderId>
    var readers: set<ReaderId>
    var idToHandle: map<ReaderId, Handle>
    var matchStatus: MatchStatus
    const env: Env

    ghost function Abs(): State
      reads this
    {
      State(pendingReaders, assocCompleteReaders, readers, idToHandle, matchStatus)
    }

    constructor (env: Env)
      ensures Abs() == INITIAL && this.env == env
    {
      pendingReaders, assocCompleteReaders, readers, idToHandle := {}, {}, {}, map[];
      matchStatus := MatchStatus(0, 0, 0, 0, 0);
      this.env := env;
    }

    /** A failed association, and the passive side of one, leave the writer as it is. */
    method TransportAssocDone(ok: bool, active: bool, r: ReaderId)
      modifies this
      ensures Abs() == if ok && active then Step(old(Abs()), TransportDone(r), env) else old(Abs())
    {
      if !ok || !active { return; }
      if r in assocCompleteReaders {
        assocCompleteReaders := assocCompleteReaders - {r};
        AssociationCompleteI(r);
      } else {
        pendingReaders := pendingReaders + {r};
      }
    }

    method AssociationCompleteCallback(r: ReaderId)
      modifies this
      ensures Abs() == Step(old(Abs()), AssociationComplete(r), env)
    {
      if r in pendingReaders {
        pendingReaders := pendingReaders - {r};
        AssociationCompleteI(r);
      } else {
        assocCompleteReaders := assocCompleteReaders + {r};
      }
    }

    method AssociationCompleteI(r: ReaderId)
      modifies this
      ensures Abs() == Complete(old(Abs()), r, env)
    {
      readers := readers + {r};
      if r in idToHandle { return; }
      var handle := env.handleOf(r);
      idToHandle := idToHandle[r := handle];
      matchStatus := MatchStatus(matchStatus.totalCount + 1, matchStatus.totalChange + 1,
                                 matchStatus.currentCount + 1, matchStatus.currentChange + 1, handle);
      if env.matchedListener {
        matchStatus := matchStatus.(totalChange := 0, currentChange := 0);
      }
    }

    /** Requires a consistent writer, so that the handle of the last fully associated reader exists when it is read. */
    method RemoveAssociations(rs: seq<ReaderId>)
      requires Consistent(Abs())
      modifies this
      ensures Abs() == Step(old(Abs()), Remove(rs), env) && Consistent(Abs())
    {
      hide FullyAssociated, PendingAfter, Consistent, Complete, Unmatched;
      StepConsistent(Abs(), Remove(rs), env);
      if rs == [] { return; }
      RemovalChangesCount(Abs(), rs);
      var full := TakeOut(rs);
      idToHandle := idToHandle - (set r | r in full);
      UpdateStatus(full);
    }

    /** The status after the readers in `full` have gone; their last handle is read only if there is one. */
    method UpdateStatus(full: seq<ReaderId>)
      requires |idToHandle| != matchStatus.currentCount <==> full != []
      modifies this`matchStatus
      ensures matchStatus == Unmatched(old(matchStatus), |idToHandle|, full, env)
    {
      var change := |idToHandle| - matchStatus.currentCount;
      matchStatus := matchStatus.(currentChange := change);
      if change != 0 {
        matchStatus := matchStatus.(currentCount := |idToHandle|, lastHandle := env.handleOf(full[|full| - 1]));
        if env.unmatchedListener {
          matchStatus := matchStatus.(totalChange := 0, currentChange := 0);
        }
      }
    }

    /** Removes rs from the fully associated readers, or else from the pending ones. */
    method TakeOut(rs: seq<ReaderId>) returns (full: seq<ReaderId>)
      modifies this`readers, this`pendingReaders
      ensures full == FullyAssociated(old(readers), rs)
      ensures readers == old(readers) - (set r | r in rs)
      ensures pendingReaders == PendingAfter(old(pendingReaders), old(readers), rs)
    {
      full := [];
      var i := 0;
      while i < |rs|
        invariant 0 <= i <= |rs|
        invariant readers == old(readers) - (set r | r in rs[..i])
        invariant FullyAssociated(old(readers), rs) == full + FullyAssociated(readers, rs[i..])
        invariant PendingAfter(old(pendingReaders), old(readers), rs) == PendingAfter(pendingReaders, readers, rs[i..])
      {
        assert rs[i..][1..] == rs[i + 1..] && rs[..i + 1] == rs[..i] + [rs[i]];
        assert rs[i] !in pendingReaders ==> pendingReaders - {rs[i]} == pendingReaders;
        if rs[i] in readers {
          readers := readers - {rs[i]};
          full := full + [rs[i]];
        } else if rs[i] in pendingReaders {
          pendingReaders := pendingReaders - {rs[i]};
        }
        i := i + 1;
      }
      assert rs[..i] == rs;
    }
  }
}
