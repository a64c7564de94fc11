/** DataReaderImpl: the liveliness-changed status counters over every run of writers added, becoming alive, becoming
    dead and being removed, with status reads and listener calls in between. */
module Liveliness {

  type WriterId = nat

  datatype WriterState = NotSet | Alive | Dead

  /** LivelinessChangedStatus. */
  datatype Status = Status(alive: int, notAlive: int, aliveChange: int, notAliveChange: int)

  /** The associated writers in the given state. */
  ghost function InState(writers: map<WriterId, WriterState>, state: WriterState): set<WriterId> {
    set w | w in writers && writers[w] == state
  }

  ghost function Count(writers: map<WriterId, WriterState>, state: WriterState): nat { |InState(writers, state)| }

  /** Setting the state of w moves one writer from its old state, if it had one, to the new one. */
  lemma CountUpdate(writers: map<WriterId, WriterState>, w: WriterId, to: WriterState, state: WriterState)
    ensures Count(writers[w := to], state) ==
            Count(writers, state) + (if to == state then 1 else 0)
            - (if w in writers && writers[w] == state then 1 else 0)
  {
    var was, now := InState(writers, state), InState(writers[w := to], state);
    if to == state { assert now == was + {w}; } else { assert now == was - {w}; }
  }

  lemma CountRemove(writers: map<WriterId, WriterState>, w: WriterId, state: WriterState)
    requires w in writers
    ensures Count(writers - {w}, state) == Count(writers, state) - if writers[w] == state then 1 else 0
  {
    assert InState(writers - {w}, state) == InState(writers, state) - {w};
  }

  class DataReader {
    var writers: map<WriterId, WriterState>
    var status: Status
    var hasListener: bool
    ghost var seenAlive: int // the counts at the last status read or listener call
    ghost var seenNotAlive: int

    ghost predicate Valid()
      reads this
    {
      && status.alive == Count(writers, Alive)
      && status.notAlive == Count(writers, Dead)
      && status.aliveChange == status.alive - seenAlive
      && status.notAliveChange == status.notAlive - seenNotAlive
    }

    constructor (hasListener: bool)
      ensures Valid() && writers == map[] && this.hasListener == hasListener
    {
      writers, status := map[], Status(0, 0, 0, 0);
      this.hasListener := hasListener;
      seenAlive, seenNotAlive := 0, 0;
      new;
      assert InState(writers, Alive) == {} && InState(writers, Dead) == {};
    }

    /** add_association: inserting a writer that is already there changes nothing. */
    method AddWriter(w: WriterId)
      requires Valid()
      modifies this
      ensures Valid() && writers == (if w in old(writers) then old(writers) else old(writers)[w := NotSet])
      ensures status == old(status) && seenAlive == old(seenAlive) && seenNotAlive == old(seenNotAlive)
    {
      if w !in writers {
        CountUpdate(writers, w, NotSet, Alive);
        CountUpdate(writers, w, NotSet, Dead);
        writers := writers[w := NotSet];
      }
    }

    method WriterBecameAlive(w: WriterId)
      requires Valid() && w in writers
      modifies this
      ensures Valid() && writers == old(writers)[w := Alive]
      ensures hasListener && old(writers)[w] != Alive ==> status.aliveChange == 0 && status.notAliveChange == 0
      ensures !hasListener || old(writers)[w] == Alive ==>
                seenAlive == old(seenAlive) && seenNotAlive == old(seenNotAlive)
    {
      CountUpdate(writers, w, Alive, Alive);
      CountUpdate(writers, w, Alive, Dead);
      var changed := false;
      if writers[w] != Alive {
        status := status.(alive := status.alive + 1, aliveChange := status.aliveChange + 1);
        changed := true;
      }
      if writers[w] == Dead {
        status := status.(notAlive := status.notAlive - 1, notAliveChange := status.notAliveChange - 1);
        changed := true;
      }
      if status.alive < 0 || status.notAlive < 0 {
        assert false; // the error exit is never taken
      }
      writers := writers[w := Alive];
      if changed { NotifyLivelinessChange(); }
    }

    method WriterBecameDead(w: WriterId)
      requires Valid() && w in writers
      modifies this
      ensures Valid() && writers == old(writers)[w := Dead]
      ensures hasListener && old(writers)[w] != Dead ==> status.aliveChange == 0 && status.notAliveChange == 0
      ensures !hasListener || old(writers)[w] == Dead ==>
                seenAlive == old(seenAlive) && seenNotAlive == old(seenNotAlive)
    {
      CountUpdate(writers, w, Dead, Alive);
      CountUpdate(writers, w, Dead, Dead);
      var changed := false;
      if writers[w] == NotSet {
        status := status.(notAlive := status.notAlive + 1, notAliveChange := status.notAliveChange + 1);
        changed := true;
      }
      if writers[w] == Alive {
        status := Status(status.alive - 1, status.notAlive + 1, status.aliveChange - 1, status.notAliveChange + 1);
        changed := true;
      }
      writers := writers[w := Dead];
      if status.alive < 0 || status.notAlive < 0 {
        assert false; // the error exit is never taken
      }
      if changed { NotifyLivelinessChange(); }
    }

    /** writer_removed and the erasure from writers_ that follows. */
    method RemoveWriter(w: WriterId)
      requires Valid()
      modifies this
      ensures Valid() && writers == old(writers) - {w}
      ensures w in old(writers) && old(writers)[w] != NotSet && hasListener ==>
                status.aliveChange == 0 && status.notAliveChange == 0
      ensures !hasListener || w !in old(writers) || old(writers)[w] == NotSet ==>
                seenAlive == old(seenAlive) && seenNotAlive == old(seenNotAlive)
    {
      if w !in writers {
        assert writers - {w} == writers;
        return;
      }
      CountRemove(writers, w, Alive);
      CountRemove(writers, w, Dead);
      var changed := false;
      if writers[w] == Alive {
        status := status.(alive := status.alive - 1, aliveChange := status.aliveChange - 1);
        changed := true;
      }
      if writers[w] == Dead {
        status := status.(notAlive := status.notAlive - 1, notAliveChange := status.notAliveChange - 1);
        changed := true;
      }
      writers := writers - {w};
      if changed { NotifyLivelinessChange(); }
    }

    /** The listener, if there is one, is told the status and consumes the changes. */
    method NotifyLivelinessChange()
      requires Valid()
      modifies this`status, this`seenAlive, this`seenNotAlive
      ensures Valid()
      ensures if hasListener then status == old(status).(aliveChange := 0, notAliveChange := 0)
              else status == old(status) && seenAlive == old(seenAlive) && seenNotAlive == old(seenNotAlive)
    {
      if hasListener {
        status := status.(aliveChange := 0, notAliveChange := 0);
        seenAlive, seenNotAlive := status.alive, status.notAlive;
      }
    }

    method GetLivelinessChangedStatus() returns (s: Status)
      requires Valid()
      modifies this`status, this`seenAlive, this`seenNotAlive
      ensures Valid() && s == old(status)
      ensures s.alive == Count(writers, Alive) && s.aliveChange == s.alive - old(seenAlive)
      ensures s.notAlive == Count(writers, Dead) && s.notAliveChange == s.notAlive - old(seenNotAlive)
      ensures seenAlive == s.alive && seenNotAlive == s.notAlive
    {
      s := status;
      status := status.(aliveChange := 0, notAliveChange := 0);
      seenAlive, seenNotAlive := status.alive, status.notAlive;
    }
  }
}
