/** EndpointManager over whole runs. match_endpoints copies the endpoint set of a topic and matches pair by pair; the
    lock is released in each pair's callbacks; so a run interleaves the steps of any number of such loops, each with its
    own copy that may be out of date, with everything else. Removals keep the lock and are single steps. */
module EndpointRuns {
  import opened EndpointMatching

  /** A running match_endpoints(x): the rest of its copy. */
  datatype Loop = Loop(x: Endpoint, todo: set<Endpoint>)

  datatype World = World(
    tables: Tables,
    loops: seq<Loop>,
    issued: set<Endpoint>,  // GUIDs that local endpoints were ever given
    returned: set<Endpoint> // those handed back to the application
  )

  datatype Event =
    | AddLocal(x: Endpoint, permitted: bool, announced: bool)
    | AddRemote(x: Endpoint, consistentType: bool)
    | Rematch(x: Endpoint)                                              // after discovery, an update or a deferral
    | Take(loop: nat, y: Endpoint, compatible: bool, deferred: bool)    // a loop comes to y
    | ForgetOne(x: Endpoint)
    | IgnoreAll(topic: string)

  /** Local GUIDs carry the own prefix and are never issued twice, remote ones do not carry it; only endpoints that are
      discovered or that the application holds are matched again. */
  predicate Enabled(w: World, e: Event) {
    match e
    case AddLocal(x, _, _) => x.own && x !in w.issued
    case AddRemote(x, _) => !x.own
    case Rematch(x) => Discovered(w.tables, x) || (Local(w.tables, x) && x in w.returned)
    case Take(i, y, _, _) => i < |w.loops| && y in w.loops[i].todo
    case _ => true
  }

  function Start(w: World, x: Endpoint): World {
    w.(loops := w.loops + [Loop(x, Topic(w.tables.endpoints, x.topic))])
  }

  /** The loop for x skips endpoints of its own kind and matches all others. */
  function TakeOne(s: Tables, x: Endpoint, y: Endpoint, compatible: bool, deferred: bool): Tables {
    if x.reader == y.reader then s else MatchPair(s, Writer(x, y), Reader(x, y), compatible, deferred)
  }

  function Step(w: World, e: Event): World
    requires Enabled(w, e)
  {
    match e
    case AddLocal(x, permitted, announced) =>
      var v := w.(tables := Register(w.tables, x, permitted), issued := w.issued + {x});
      if permitted && announced then Start(v.(returned := w.returned + {x}), x) else v
    case AddRemote(x, c) => w.(tables := Discover(w.tables, x, c))
    case Rematch(x) => Start(w, x)
    case Take(i, y, c, d) =>
      var l := w.loops[i];
      w.(tables := TakeOne(w.tables, l.x, y, c, d), loops := w.loops[i := Loop(l.x, l.todo - {y})])
    case ForgetOne(x) => w.(tables := Forget(w.tables, x))
    case IgnoreAll(topic) => w.(tables := IgnoreTopic(w.tables, topic))
  }

  ghost predicate Runs(w: World, es: seq<Event>)
    decreases es
  {
    es == [] || (Enabled(w, es[0]) && Runs(Step(w, es[0]), es[1..]))
  }

  ghost function Run(w: World, es: seq<Event>): World
    requires Runs(w, es)
    decreases es
  {
    if es == [] then w else Run(Step(w, es[0]), es[1..])
  }

  const EMPTY := World(Tables(map[], map[], {}, {}, map[]), [], {}, {})

  // ---- What makes stale copies harmless ----

  /** Prefixes tell local from remote, what is on a topic is known, and what the application holds is on its topic. */
  ghost predicate Accounted(s: Tables, issued: set<Endpoint>, returned: set<Endpoint>) {
    && (forall x :: Local(s, x) ==> x in issued)
    && (forall x :: x in issued ==> x.own)
    && (forall x :: Discovered(s, x) ==> !x.own)
    && (forall x :: On(s.endpoints, x) ==> Known(s, x))
    && returned <= issued
    && (forall x :: Local(s, x) && x in returned ==> On(s.endpoints, x))
  }

  /** The loop's endpoint was discovered or returned; its copy is of one topic, names no GUID still to be issued, and
      what in it is local is still on the topic. */
  ghost predicate Sound(s: Tables, issued: set<Endpoint>, returned: set<Endpoint>, l: Loop) {
    && (l.x.own ==> l.x in returned)
    && (forall y <- l.todo :: y.topic == l.x.topic && (y.own ==> y in issued) && (Local(s, y) ==> On(s.endpoints, y)))
  }

  ghost predicate Sane(w: World) {
    && Consistent(w.tables) && Accounted(w.tables, w.issued, w.returned)
    && forall l <- w.loops :: Sound(w.tables, w.issued, w.returned, l)
  }

  /** Every pair that a loop comes to faces and is on its topic as far as it is local, however old the copy is. */
  lemma LoopPairsMatchable(s: Tables, issued: set<Endpoint>, returned: set<Endpoint>, l: Loop, y: Endpoint)
    requires Accounted(s, issued, returned) && Sound(s, issued, returned, l) && y in l.todo && l.x.reader != y.reader
    ensures Matchable(s, Writer(l.x, y), Reader(l.x, y))
  {
  }

  /** A loop starts sound. */
  lemma StartSound(s: Tables, issued: set<Endpoint>, returned: set<Endpoint>, x: Endpoint)
    requires Consistent(s) && Accounted(s, issued, returned) && (x.own ==> x in returned)
    ensures Sound(s, issued, returned, Loop(x, Topic(s.endpoints, x.topic)))
  {
    forall y <- Topic(s.endpoints, x.topic)
      ensures y.topic == x.topic && (y.own ==> y in issued) && On(s.endpoints, y)
    {
      assert TopicsHold(s.endpoints);
      assert On(s.endpoints, y);
    }
  }

  /** From s to t nobody became local, and who stayed local stayed on the topic. */
  ghost predicate Shrinks(s: Tables, t: Tables) {
    && (forall y :: Local(t, y) ==> Local(s, y) && (On(s.endpoints, y) ==> On(t.endpoints, y)))
    && (forall y :: Discovered(t, y) ==> Discovered(s, y) || !y.own)
    && (forall y :: On(t.endpoints, y) ==> Known(t, y))
  }

  lemma ShrinksKeeps(s: Tables, t: Tables, issued: set<Endpoint>, returned: set<Endpoint>)
    requires Accounted(s, issued, returned) && Shrinks(s, t)
    ensures Accounted(t, issued, returned)
    ensures forall l :: Sound(s, issued, returned, l) ==> Sound(t, issued, returned, l)
  {
    hide Local, Discovered, On;
  }

  lemma SameEndpointsShrinks(s: Tables, t: Tables)
    requires SameEndpoints(s, t) && forall y :: On(s.endpoints, y) ==> Known(s, y)
    ensures Shrinks(s, t)
  {
    forall y ensures (Local(t, y) <==> Local(s, y)) && (Discovered(t, y) <==> Discovered(s, y)) {
      assert y in s.pubs.Keys <==> y in t.pubs.Keys;
      assert y in s.subs.Keys <==> y in t.subs.Keys;
    }
  }

  lemma ForgetShrinks(s: Tables, x: Endpoint)
    requires forall y :: On(s.endpoints, y) ==> Known(s, y)
    ensures Shrinks(s, Forget(s, x))
  {
    ForgetKnown(s, x);
    hide Forget, Local, Discovered, On;
  }

  lemma DiscoverShrinks(s: Tables, x: Endpoint, c: bool)
    requires !x.own && forall y :: On(s.endpoints, y) ==> Known(s, y)
    ensures Shrinks(s, Discover(s, x, c))
  {
    var t := Discover(s, x, c);
    forall y
      ensures (On(t.endpoints, y) ==> On(s.endpoints, y) || y == x) && (Known(t, y) <==> Known(s, y) || y == x)
    {
    }
  }

  /** A GUID that was never issued is in no copy, so registering it leaves every loop sound. */
  lemma RegisterKeeps(s: Tables, x: Endpoint, permitted: bool, issued: set<Endpoint>, returned: set<Endpoint>)
    requires Accounted(s, issued, returned) && KindsHold(s.pubs, s.subs) && x.own && x !in issued && !Known(s, x)
    ensures var t := Register(s, x, permitted);
            && Accounted(t, issued + {x}, returned)
            && (permitted ==> Accounted(t, issued + {x}, returned + {x}))
    ensures forall l :: Sound(s, issued, returned, l) ==>
                          && Sound(Register(s, x, permitted), issued + {x}, returned, l)
                          && Sound(Register(s, x, permitted), issued + {x}, returned + {x}, l)
  {
    RegisterAdds(s, x, permitted);
    RegisterOn(s, x, permitted);
    hide Register, Local, Discovered, On;
  }

  lemma RegisterOn(s: Tables, x: Endpoint, permitted: bool)
    ensures forall y :: On(Register(s, x, permitted).endpoints, y) <==> On(s.endpoints, y) || (permitted && y == x)
  {
  }

  // ---- Steps and runs ----

  lemma AddLocalSane(w: World, x: Endpoint, permitted: bool, announced: bool)
    requires Sane(w) && x.own && x !in w.issued
    ensures Sane(Step(w, AddLocal(x, permitted, announced)))
  {
    var s, t := w.tables, Register(w.tables, x, permitted);
    assert !Known(s, x);
    RegisterConsistent(s, x, permitted);
    RegisterKeeps(s, x, permitted, w.issued, w.returned);
    if permitted && announced { StartSound(t, w.issued + {x}, w.returned + {x}, x); }
    hide Register, Consistent, Accounted, Sound, Topic;
  }

  lemma TakeSane(w: World, i: nat, y: Endpoint, compatible: bool, deferred: bool)
    requires Sane(w) && i < |w.loops| && y in w.loops[i].todo
    ensures Sane(Step(w, Take(i, y, compatible, deferred)))
  {
    var s, l := w.tables, w.loops[i];
    var t := TakeOne(s, l.x, y, compatible, deferred);
    if l.x.reader != y.reader {
      LoopPairsMatchable(s, w.issued, w.returned, l, y);
      MatchPairConsistent(s, Writer(l.x, y), Reader(l.x, y), compatible, deferred);
      MatchPairLinks(s, Writer(l.x, y), Reader(l.x, y), compatible, deferred);
      SameEndpointsShrinks(s, t);
      ShrinksKeeps(s, t, w.issued, w.returned);
    }
    assert Sound(t, w.issued, w.returned, l);
    assert Sound(t, w.issued, w.returned, Loop(l.x, l.todo - {y}));
    hide Consistent, Accounted, Sound, TakeOne;
  }

  lemma ShrinkSane(w: World, t: Tables)
    requires Sane(w) && Consistent(t) && Shrinks(w.tables, t)
    ensures Sane(w.(tables := t))
  {
    ShrinksKeeps(w.tables, t, w.issued, w.returned);
    hide Consistent, Accounted, Sound, Shrinks;
  }

  lemma StepSane(w: World, e: Event)
    requires Sane(w) && Enabled(w, e)
    ensures Sane(Step(w, e))
  {
    match e
    case AddLocal(x, p, a) => AddLocalSane(w, x, p, a);
    case AddRemote(x, c) =>
      DiscoverConsistent(w.tables, x, c);
      DiscoverShrinks(w.tables, x, c);
      ShrinkSane(w, Discover(w.tables, x, c));
    case Rematch(x) =>
      StartSound(w.tables, w.issued, w.returned, x);
    case Take(i, y, c, d) => TakeSane(w, i, y, c, d);
    case ForgetOne(x) =>
      ForgetConsistent(w.tables, x);
      ForgetShrinks(w.tables, x);
      ShrinkSane(w, Forget(w.tables, x));
    case IgnoreAll(topic) =>
      IgnoreTopicConsistent(w.tables, topic);
      SameEndpointsShrinks(w.tables, IgnoreTopic(w.tables, topic));
      ShrinkSane(w, IgnoreTopic(w.tables, topic));
  }

  /** However the steps of concurrent match loops interleave with everything else, the tables stay consistent. */
  lemma {:induction false} RunSane(w: World, es: seq<Event>)
    requires Sane(w) && Runs(w, es)
    ensures Sane(Run(w, es))
    decreases es
  {
    hide Sane, Step, Enabled;
    if es != [] {
      StepSane(w, es[0]);
      RunSane(Step(w, es[0]), es[1..]);
    }
  }

  /** After any run from the start, a local writer lists a local reader iff that reader lists the writer, and whatever
      is listed is a known endpoint of the other kind on the same topic. */
  lemma MatchingIsMutual(es: seq<Event>, w: Endpoint, r: Endpoint)
    requires Runs(EMPTY, es)
    ensures var s := Run(EMPTY, es).tables;
            && (w in s.pubs && r in s.subs ==> (r in s.pubs[w] <==> w in s.subs[r]))
            && (w in s.pubs && r in s.pubs[w] ==> r.reader && !w.reader && r.topic == w.topic && Known(s, r))
            && (r in s.subs && w in s.subs[r] ==> r.reader && !w.reader && r.topic == w.topic && Known(s, w))
  {
    RunSane(EMPTY, es);
    hide Run, Runs;
    var s := Run(EMPTY, es).tables;
    assert Lists(s, w, r) ==> Facing(w, r);
    assert Lists(s, r, w) ==> Facing(r, w);
  }

  /** The event makes x known. */
  predicate Introduces(e: Event, x: Endpoint) {
    (e.AddLocal? && e.x == x) || (e.AddRemote? && e.x == x)
  }

  lemma UnknownStep(w: World, e: Event, x: Endpoint)
    requires Enabled(w, e) && !Known(w.tables, x) && !Introduces(e, x)
    ensures !Known(Step(w, e).tables, x)
  {
  }

  lemma {:induction false} UnknownRun(w: World, es: seq<Event>, x: Endpoint)
    requires Runs(w, es) && !Known(w.tables, x) && forall e <- es :: !Introduces(e, x)
    ensures !Known(Run(w, es).tables, x)
    decreases es
  {
    hide Step, Known, Introduces, Enabled;
    if es != [] {
      UnknownStep(w, es[0], x);
      UnknownRun(Step(w, es[0]), es[1..], x);
    }
  }

  /** Once forgotten, an endpoint is matched with nobody until it is discovered anew: a loop that still holds it in its
      copy, or that runs for it, cannot bring it back. */
  lemma ForgottenStaysUnmatched(w: World, x: Endpoint, es: seq<Event>, y: Endpoint)
    requires Sane(w) && Runs(Step(w, ForgetOne(x)), es) && forall e <- es :: !Introduces(e, x)
    ensures !Linked(Run(Step(w, ForgetOne(x)), es).tables, x, y)
  {
    StepSane(w, ForgetOne(x));
    ForgetForgets(w.tables, x);
    var v := Step(w, ForgetOne(x));
    hide Forget, Run, Step, Introduces;
    RunSane(v, es);
    UnknownRun(v, es, x);
  }
}
