/** EndpointManager: which endpoints each local publication and subscription is matched with. The lock is released
    during the callbacks of match(), so the unit of interleaving is one pair. */
module EndpointMatching {

  /** A GUID: whether its prefix is this participant's own, and its reader bit (entityKind & 4). It belongs to one topic
      for life. */
  datatype Endpoint = Endpoint(key: nat, own: bool, reader: bool, topic: string)

  type Matched = map<Endpoint, set<Endpoint>>

  datatype Tables = Tables(
    pubs: Matched,                        // local_publications_: matched_endpoints_ of each
    subs: Matched,                        // local_subscriptions_
    discPubs: set<Endpoint>,              // discovered_publications_
    discSubs: set<Endpoint>,              // discovered_subscriptions_
    endpoints: map<string, set<Endpoint>> // topics_[name].endpoints_
  )

  predicate Local(s: Tables, x: Endpoint) { if x.reader then x in s.subs else x in s.pubs }

  predicate Discovered(s: Tables, x: Endpoint) { if x.reader then x in s.discSubs else x in s.discPubs }

  predicate Known(s: Tables, x: Endpoint) { Local(s, x) || Discovered(s, x) }

  /** x is local and lists y among its matches. */
  predicate Lists(s: Tables, x: Endpoint, y: Endpoint) {
    if x.reader then x in s.subs && y in s.subs[x] else x in s.pubs && y in s.pubs[x]
  }

  predicate Linked(s: Tables, w: Endpoint, r: Endpoint) { Lists(s, w, r) || Lists(s, r, w) }

  predicate Facing(x: Endpoint, y: Endpoint) { x.reader != y.reader && x.topic == y.topic }

  predicate On(endpoints: map<string, set<Endpoint>>, x: Endpoint) {
    x.topic in endpoints && x in endpoints[x.topic]
  }

  predicate KindsHold(pubs: Matched, subs: Matched) {
    (forall w <- pubs :: !w.reader) && (forall r <- subs :: r.reader)
  }

  lemma KindsByKeys(pubs: Matched, subs: Matched, pubs': Matched, subs': Matched)
    requires KindsHold(pubs, subs) && pubs.Keys == pubs'.Keys && subs.Keys == subs'.Keys
    ensures KindsHold(pubs', subs')
  {
    assert forall w <- pubs' :: w in pubs.Keys;
    assert forall r <- subs' :: r in subs.Keys;
  }

  ghost predicate TopicsHold(endpoints: map<string, set<Endpoint>>) {
    forall topic, x :: topic in endpoints && x in endpoints[topic] ==> x.topic == topic
  }

  /** Local endpoints are not discovered ones; whoever lists a match is on its topic; and every listed match faces its
      lister, is known, and if local lists it back. */
  ghost predicate Consistent(s: Tables) {
    && KindsHold(s.pubs, s.subs) && TopicsHold(s.endpoints)
    && (forall x :: Local(s, x) ==> !Discovered(s, x))
    && (forall x, y :: Lists(s, x, y) ==>
                         On(s.endpoints, x) && Facing(x, y) && Known(s, y) && (Local(s, y) ==> Lists(s, y, x)))
  }

  // ---- One pair ----

  function Add(m: Matched, x: Endpoint, y: Endpoint): Matched { if x in m then m[x := m[x] + {y}] else m }

  function Drop(m: Matched, x: Endpoint, y: Endpoint): Matched { if x in m then m[x := m[x] - {y}] else m }

  /** match() up to where it may release the lock: compatible is the QoS and transport check, deferred the answer of
      defer_writer or defer_reader for the side that is not local. */
  function MatchPair(s: Tables, w: Endpoint, r: Endpoint, compatible: bool, deferred: bool): Tables {
    if !Known(s, w) || !Known(s, r) || (!Local(s, w) && !Local(s, r)) then s
    else if compatible then
      if deferred && !(Local(s, w) && Local(s, r)) then s
      else s.(pubs := Add(s.pubs, w, r), subs := Add(s.subs, r, w))
    else if Linked(s, w, r) then s.(pubs := Drop(s.pubs, w, r), subs := Drop(s.subs, r, w))
    else s
  }

  /** A pair that a match loop can come to: facing endpoints, on their topic if local. */
  predicate Matchable(s: Tables, w: Endpoint, r: Endpoint) {
    && Facing(w, r) && r.reader
    && (Local(s, w) ==> On(s.endpoints, w)) && (Local(s, r) ==> On(s.endpoints, r))
  }

  /** What matching a pair decides, as a relation between two endpoints. */
  predicate Verdict(s: Tables, w: Endpoint, r: Endpoint, compatible: bool, deferred: bool) {
    if !Known(s, w) || !Known(s, r) || (!Local(s, w) && !Local(s, r)) then false
    else compatible && (Linked(s, w, r) || !deferred || (Local(s, w) && Local(s, r)))
  }

  /** The endpoints are the same in both, whatever their matches. */
  predicate SameEndpoints(s: Tables, t: Tables) {
    && s.pubs.Keys == t.pubs.Keys && s.subs.Keys == t.subs.Keys
    && s.discPubs == t.discPubs && s.discSubs == t.discSubs && s.endpoints == t.endpoints
  }

  lemma MatchPairLinks(s: Tables, w: Endpoint, r: Endpoint, compatible: bool, deferred: bool)
    requires Consistent(s) && Matchable(s, w, r)
    ensures var t := MatchPair(s, w, r, compatible, deferred);
            SameEndpoints(s, t) && (Linked(t, w, r) <==> Verdict(s, w, r, compatible, deferred))
  {
  }

  lemma MatchPairLeaves(s: Tables, w: Endpoint, r: Endpoint, compatible: bool, deferred: bool)
    requires !w.reader && r.reader
    ensures var t := MatchPair(s, w, r, compatible, deferred);
            forall x, y :: (x, y) != (w, r) && (x, y) != (r, w) ==> (Lists(t, x, y) <==> Lists(s, x, y))
  {
  }

  lemma MatchPairDecides(s: Tables, w: Endpoint, r: Endpoint, compatible: bool, deferred: bool)
    requires Consistent(s) && Matchable(s, w, r)
    ensures var t := MatchPair(s, w, r, compatible, deferred);
            && SameEndpoints(s, t)
            && (Linked(t, w, r) <==> Verdict(s, w, r, compatible, deferred))
            && forall x, y :: (x, y) != (w, r) && (x, y) != (r, w) ==> (Lists(t, x, y) <==> Lists(s, x, y))
  {
    MatchPairLinks(s, w, r, compatible, deferred);
    MatchPairLeaves(s, w, r, compatible, deferred);
  }

  lemma MatchPairConsistent(s: Tables, w: Endpoint, r: Endpoint, compatible: bool, deferred: bool)
    requires Consistent(s) && Matchable(s, w, r)
    ensures Consistent(MatchPair(s, w, r, compatible, deferred))
  {
    hide MatchPair;
    var t := MatchPair(s, w, r, compatible, deferred);
    MatchPairDecides(s, w, r, compatible, deferred);
    MatchPairBothSides(s, w, r, compatible, deferred);
    forall x ensures (Local(t, x) <==> Local(s, x)) && (Known(t, x) <==> Known(s, x)) {}
    forall x, y | Lists(t, x, y)
      ensures On(t.endpoints, x) && Facing(x, y) && Known(t, y) && (Local(t, y) ==> Lists(t, y, x))
    {
    }
  }

  lemma MatchPairBothSides(s: Tables, w: Endpoint, r: Endpoint, compatible: bool, deferred: bool)
    requires Consistent(s) && Matchable(s, w, r)
    ensures var t := MatchPair(s, w, r, compatible, deferred);
            && (Linked(t, w, r) ==> Known(t, w) && Known(t, r))
            && (Local(t, w) && Local(t, r) ==> (Lists(t, w, r) <==> Lists(t, r, w)))
  {
  }

  // ---- Everything else an endpoint can go through ----

  function Enter(endpoints: map<string, set<Endpoint>>, x: Endpoint): map<string, set<Endpoint>> {
    endpoints[x.topic := Topic(endpoints, x.topic) + {x}]
  }

  function Leave(endpoints: map<string, set<Endpoint>>, x: Endpoint): map<string, set<Endpoint>> {
    if x.topic in endpoints then endpoints[x.topic := endpoints[x.topic] - {x}] else endpoints
  }

  /** A fresh local endpoint, before it is matched; one that access control does not permit is remembered but not put
      on the topic. */
  function Register(s: Tables, x: Endpoint, permitted: bool): Tables {
    var e := if permitted then Enter(s.endpoints, x) else s.endpoints;
    if x.reader then s.(subs := s.subs[x := {}], endpoints := e) else s.(pubs := s.pubs[x := {}], endpoints := e)
  }

  /** A discovered endpoint; one whose data type is inconsistent with the topic is remembered but not put on it. */
  function Discover(s: Tables, x: Endpoint, consistentType: bool): Tables {
    var e := if consistentType then Enter(s.endpoints, x) else s.endpoints;
    if x.reader then s.(discSubs := s.discSubs + {x}, endpoints := e)
    else s.(discPubs := s.discPubs + {x}, endpoints := e)
  }

  /** The endpoints among the given ones no longer list those that are gone. */
  function Without(m: Matched, among: set<Endpoint>, gone: set<Endpoint>): (r: Matched)
    ensures r.Keys == m.Keys
  {
    map x | x in m :: if x in among then m[x] - gone else m[x]
  }

  lemma WithoutNone(m: Matched, all: set<Endpoint>)
    ensures Without(m, {}, all) == m && Without(m, all, {}) == m
  {
    assert forall k <- m :: m[k] - {} == m[k];
  }

  lemma WithoutOneMore(m: Matched, among: set<Endpoint>, y: Endpoint, gone: set<Endpoint>, x: Endpoint)
    ensures Drop(Without(m, among, {x}), y, x) == Without(m, among + {y}, {x})
    ensures Without(Without(m, among, gone), among, {x}) == Without(m, among, gone + {x})
    ensures y !in m ==> Without(m, among + {y}, gone) == Without(m, among, gone) == Without(m, among - {y}, gone)
  {
    assert forall k <- m :: (m[k] - gone) - {x} == m[k] - (gone + {x}) && (m[k] - {x}) - {x} == m[k] - {x};
  }

  /** An endpoint is never listed by one of its own kind. */
  lemma WithoutOwnKind(s: Tables, among: set<Endpoint>, gone: set<Endpoint>, x: Endpoint)
    requires Consistent(s)
    ensures x.reader ==> Without(s.subs, among, gone + {x}) == Without(s.subs, among, gone)
    ensures !x.reader ==> Without(s.pubs, among, gone + {x}) == Without(s.pubs, among, gone)
  {
    forall y: Endpoint | y.reader == x.reader ensures !Lists(s, y, x) {}
    forall y <- s.subs ensures x.reader ==> s.subs[y] - (gone + {x}) == s.subs[y] - gone {
      assert !x.reader || !Lists(s, y, x);
    }
    forall y <- s.pubs ensures !x.reader ==> s.pubs[y] - (gone + {x}) == s.pubs[y] - gone {
      assert x.reader || !Lists(s, y, x);
    }
  }

  function Topic(endpoints: map<string, set<Endpoint>>, topic: string): set<Endpoint> {
    if topic in endpoints then endpoints[topic] else {}
  }

  /** Removal of a local endpoint, disposal of a discovered one, or ignoring it. */
  function Forget(s: Tables, x: Endpoint): Tables {
    if x.reader then
      s.(pubs := Without(s.pubs, Topic(s.endpoints, x.topic), {x}), subs := s.subs - {x},
         discSubs := s.discSubs - {x}, endpoints := Leave(s.endpoints, x))
    else
      s.(subs := Without(s.subs, Topic(s.endpoints, x.topic), {x}), pubs := s.pubs - {x},
         discPubs := s.discPubs - {x}, endpoints := Leave(s.endpoints, x))
  }

  /** Ignoring a topic breaks every match among the endpoints on it. */
  function IgnoreTopic(s: Tables, topic: string): Tables {
    var all := Topic(s.endpoints, topic);
    s.(pubs := Without(s.pubs, all, all), subs := Without(s.subs, all, all))
  }

  /** Tables that list the same matches, with more known and nobody newly local who is already listed. */
  ghost predicate Extends(s: Tables, t: Tables) {
    && KindsHold(t.pubs, t.subs) && TopicsHold(t.endpoints)
    && (forall y :: Local(t, y) ==> !Discovered(t, y))
    && (forall y, z :: Lists(t, y, z) <==> Lists(s, y, z))
    && (forall y :: Known(s, y) ==> Known(t, y))
    && (forall y :: Local(t, y) ==> Local(s, y) || !Known(s, y))
    && (forall y :: On(s.endpoints, y) ==> On(t.endpoints, y))
  }

  lemma ExtendsConsistent(s: Tables, t: Tables)
    requires Consistent(s) && Extends(s, t)
    ensures Consistent(t)
  {
    hide Lists, Local, Discovered, On, KindsHold, TopicsHold;
  }

  lemma EnterKeeps(endpoints: map<string, set<Endpoint>>, x: Endpoint)
    requires TopicsHold(endpoints)
    ensures TopicsHold(Enter(endpoints, x)) && forall y :: On(endpoints, y) ==> On(Enter(endpoints, x), y)
  {
  }

  lemma RegisterAdds(s: Tables, x: Endpoint, permitted: bool)
    requires KindsHold(s.pubs, s.subs) && !Known(s, x)
    ensures var t := Register(s, x, permitted);
            && KindsHold(t.pubs, t.subs)
            && (forall y, z :: Lists(t, y, z) <==> Lists(s, y, z))
            && (forall y :: Local(t, y) <==> y == x || Local(s, y))
            && (forall y :: Discovered(t, y) <==> Discovered(s, y))
  {
  }

  lemma RegisterConsistent(s: Tables, x: Endpoint, permitted: bool)
    requires Consistent(s) && !Known(s, x)
    ensures Consistent(Register(s, x, permitted))
  {
    hide On, TopicsHold, Enter, Lists, Local, Discovered, KindsHold;
    EnterKeeps(s.endpoints, x);
    RegisterAdds(s, x, permitted);
    ExtendsConsistent(s, Register(s, x, permitted));
  }

  lemma DiscoverConsistent(s: Tables, x: Endpoint, consistentType: bool)
    requires Consistent(s) && !Local(s, x)
    ensures Consistent(Discover(s, x, consistentType))
  {
    var t := Discover(s, x, consistentType);
    EnterKeeps(s.endpoints, x);
    hide On, TopicsHold, Enter;
    forall y, z ensures Lists(t, y, z) <==> Lists(s, y, z) {}
    forall y ensures (Local(t, y) <==> Local(s, y)) && (Discovered(t, y) <==> y == x || Discovered(s, y)) {}
    ExtendsConsistent(s, t);
  }

  lemma ForgetLists(s: Tables, x: Endpoint)
    requires Consistent(s)
    ensures var t := Forget(s, x);
            && (forall y :: !Lists(t, x, y) && !Lists(t, y, x))
            && (forall y, z :: y != x && z != x ==> (Lists(t, y, z) <==> Lists(s, y, z)))
  {
    var t := Forget(s, x);
    forall y, z ensures Lists(t, y, z) ==> Lists(s, y, z) {}
    forall y ensures !Lists(t, y, x) { assert Lists(s, y, x) ==> Facing(y, x) && Local(s, y); }
  }

  lemma ForgetKnown(s: Tables, x: Endpoint)
    ensures var t := Forget(s, x);
            && !Known(t, x) && !On(t.endpoints, x)
            && (forall y :: y != x ==> (Local(t, y) <==> Local(s, y)) && (Discovered(t, y) <==> Discovered(s, y)))
            && (forall y :: y != x ==> (On(t.endpoints, y) <==> On(s.endpoints, y)))
  {
  }

  /** A forgotten endpoint is unknown, on no topic and in no match; nothing else changes. */
  lemma ForgetForgets(s: Tables, x: Endpoint)
    requires Consistent(s)
    ensures var t := Forget(s, x);
            && !Known(t, x) && !On(t.endpoints, x)
            && (forall y :: !Lists(t, x, y) && !Lists(t, y, x))
            && (forall y, z :: y != x && z != x ==> (Lists(t, y, z) <==> Lists(s, y, z)))
            && (forall y :: y != x ==> (Local(t, y) <==> Local(s, y)) && (Discovered(t, y) <==> Discovered(s, y)))
            && (forall y :: y != x ==> (On(t.endpoints, y) <==> On(s.endpoints, y)))
  {
    ForgetLists(s, x);
    ForgetKnown(s, x);
    hide Forget, Lists, Local, Discovered, On, Consistent;
  }

  /** Forgetting a discovered endpoint, in the order in which it is done. */
  lemma ForgetDiscovered(s: Tables, x: Endpoint)
    requires Consistent(s) && Discovered(s, x)
    ensures var e := Leave(s.endpoints, x);
            Forget(s, x) ==
            if x.reader
            then s.(pubs := Without(s.pubs, Topic(e, x.topic), {x}), discSubs := s.discSubs - {x}, endpoints := e)
            else s.(subs := Without(s.subs, Topic(e, x.topic), {x}), discPubs := s.discPubs - {x}, endpoints := e)
  {
    WithoutOneMore(if x.reader then s.pubs else s.subs, Topic(s.endpoints, x.topic), x, {x}, x);
    hide Without;
    assert if x.reader then s.subs - {x} == s.subs else s.pubs - {x} == s.pubs;
  }

  lemma ForgetConsistent(s: Tables, x: Endpoint)
    requires Consistent(s)
    ensures Consistent(Forget(s, x))
  {
    ForgetForgets(s, x);
  }

  lemma IgnoreTopicConsistent(s: Tables, topic: string)
    requires Consistent(s)
    ensures Consistent(IgnoreTopic(s, topic))
    ensures forall x, y :: Lists(IgnoreTopic(s, topic), x, y) <==>
                           Lists(s, x, y) && !(y.topic == topic && On(s.endpoints, y))
  {
    var t := IgnoreTopic(s, topic);
    forall x, y
      ensures Lists(t, x, y) <==> Lists(s, x, y) && !(y.topic == topic && On(s.endpoints, y))
    {
      assert Lists(s, x, y) ==> Facing(x, y) && Local(s, x);
    }
    forall x ensures Local(t, x) <==> Local(s, x) {}
  }

  // ---- The manager ----

  function Writer(x: Endpoint, y: Endpoint): Endpoint { if x.reader then y else x }

  function Reader(x: Endpoint, y: Endpoint): Endpoint { if x.reader then x else y }

  /** x and y are matched with each other. */
  predicate Pair(s: Tables, x: Endpoint, y: Endpoint) { Linked(s, Writer(x, y), Reader(x, y)) }

  /** The QoS check on a pair, and whether discovery defers matching with a remote endpoint. */
  datatype Policy = Policy(compatible: (Endpoint, Endpoint) -> bool, deferred: Endpoint -> bool)

  predicate Defers(s: Tables, p: Policy, w: Endpoint, r: Endpoint) {
    if !Local(s, w) then p.deferred(w) else !Local(s, r) && p.deferred(r)
  }

  predicate Decides(s: Tables, p: Policy, x: Endpoint, y: Endpoint) {
    Verdict(s, Writer(x, y), Reader(x, y), p.compatible(Writer(x, y), Reader(x, y)),
            Defers(s, p, Writer(x, y), Reader(x, y)))
  }

  /** From s to t, x was matched with the endpoints on its topic outside todo as the policy decides, and nothing else
      changed. */
  ghost predicate MatchedExcept(s: Tables, t: Tables, p: Policy, x: Endpoint, todo: set<Endpoint>) {
    && Consistent(t) && SameEndpoints(s, t)
    && (forall y :: Facing(x, y) ==>
                      (Pair(t, x, y) <==>
                         if On(s.endpoints, y) && y !in todo then Decides(s, p, x, y) else Pair(s, x, y)))
    && (forall y, z :: Facing(y, z) && y != x && z != x ==> (Pair(t, y, z) <==> Pair(s, y, z)))
  }

  lemma SameDecision(s: Tables, t: Tables, p: Policy, x: Endpoint, y: Endpoint)
    requires SameEndpoints(s, t) && (Pair(s, x, y) <==> Pair(t, x, y))
    ensures Decides(s, p, x, y) <==> Decides(t, p, x, y)
  {
  }

  /** Matching one pair settles that pair as the policy decides and leaves all others. */
  lemma MatchPairSettles(s: Tables, p: Policy, x: Endpoint, y: Endpoint)
    requires Consistent(s) && Matchable(s, Writer(x, y), Reader(x, y))
    ensures var w, r := Writer(x, y), Reader(x, y);
            var t := MatchPair(s, w, r, p.compatible(w, r), Defers(s, p, w, r));
            && Consistent(t) && SameEndpoints(s, t)
            && (Pair(t, x, y) <==> Decides(s, p, x, y))
            && forall y', z' :: Facing(y', z') && {y', z'} != {x, y} ==> (Pair(t, y', z') <==> Pair(s, y', z'))
  {
    var w, r := Writer(x, y), Reader(x, y);
    MatchPairDecides(s, w, r, p.compatible(w, r), Defers(s, p, w, r));
    MatchPairConsistent(s, w, r, p.compatible(w, r), Defers(s, p, w, r));
    hide MatchPair, Consistent, Lists, Verdict, Defers;
    var t := MatchPair(s, w, r, p.compatible(w, r), Defers(s, p, w, r));
    forall y', z' | Facing(y', z') && {y', z'} != {x, y} ensures Pair(t, y', z') <==> Pair(s, y', z') {
      var w', r' := Writer(y', z'), Reader(y', z');
      assert {w', r'} == {y', z'} && {w, r} == {x, y};
      assert Lists(t, w', r') <==> Lists(s, w', r');
      assert Lists(t, r', w') <==> Lists(s, r', w');
    }
  }

  lemma MatchOneMore(s: Tables, t: Tables, p: Policy, x: Endpoint, y: Endpoint, todo: set<Endpoint>)
    requires MatchedExcept(s, t, p, x, todo + {y}) && Facing(x, y) && On(s.endpoints, y) && y !in todo
    requires Local(s, x) ==> On(s.endpoints, x)
    ensures var w, r := Writer(x, y), Reader(x, y);
            MatchedExcept(s, MatchPair(t, w, r, p.compatible(w, r), Defers(t, p, w, r)), p, x, todo)
  {
    hide MatchPair, Consistent, Pair, Decides, Defers;
    MatchPairSettles(t, p, x, y);
    SameDecision(s, t, p, x, y);
    var u := MatchPair(t, Writer(x, y), Reader(x, y), p.compatible(Writer(x, y), Reader(x, y)),
                       Defers(t, p, Writer(x, y), Reader(x, y)));
    forall z | Facing(x, z)
      ensures Pair(u, x, z) <==> if On(s.endpoints, z) && z !in todo then Decides(s, p, x, z) else Pair(s, x, z)
    {
      if z != y {
        assert z in {x, z} && z !in {x, y};
      }
    }
    forall z, z' | Facing(z, z') && z != x && z' != x ensures Pair(u, z, z') <==> Pair(s, z, z') {
      assert x in {x, y} && x !in {z, z'};
    }
  }

  /** After x has been matched, in plain terms: two local endpoints on the topic list each other iff compatible; a local
      one lists a remote one iff compatible and it did already or the remote one is not deferred. */
  lemma MatchedPlainly(s: Tables, t: Tables, p: Policy, x: Endpoint, y: Endpoint)
    requires Consistent(s) && MatchedExcept(s, t, p, x, {}) && Known(s, x) && Known(s, y)
    requires x.reader != y.reader && x.topic == y.topic && On(s.endpoints, y)
    ensures var compatible := if x.reader then p.compatible(y, x) else p.compatible(x, y);
            && (Local(s, x) && Local(s, y) ==> (Lists(t, x, y) <==> compatible) && (Lists(t, y, x) <==> compatible))
            && (Local(s, x) && !Local(s, y) ==>
                  (Lists(t, x, y) <==> compatible && (Lists(s, x, y) || !p.deferred(y))))
            && (!Local(s, x) && Local(s, y) ==>
                  (Lists(t, y, x) <==> compatible && (Lists(s, y, x) || !p.deferred(x))))
  {
    assert Pair(t, x, y) <==> Decides(s, p, x, y);
  }

  /** Nobody lists an endpoint that is not known, and one just added lists nobody. */
  lemma NotListed(s: Tables, t: Tables, x: Endpoint)
    requires Consistent(s) && !Known(s, x) && (exists b :: t == Register(s, x, b) || t == Discover(s, x, b))
    ensures forall y :: !Lists(t, x, y) && !Lists(t, y, x)
  {
    forall y ensures !Lists(t, x, y) && !Lists(t, y, x) { assert !Lists(s, y, x) && !Lists(s, x, y); }
  }

  /** A new local endpoint x, in plain terms. */
  lemma AddedLocally(s: Tables, t: Tables, p: Policy, x: Endpoint, y: Endpoint)
    requires Consistent(s) && !Known(s, x) && MatchedExcept(Register(s, x, true), t, p, x, {})
    requires x.reader != y.reader && x.topic == y.topic && On(s.endpoints, y)
    ensures var compatible := if x.reader then p.compatible(y, x) else p.compatible(x, y);
            && (Local(s, y) ==> (Lists(t, x, y) <==> compatible) && (Lists(t, y, x) <==> compatible))
            && (Discovered(s, y) ==> (Lists(t, x, y) <==> compatible && !p.deferred(y)))
  {
    var r := Register(s, x, true);
    RegisterConsistent(s, x, true);
    RegisterAdds(s, x, true);
    EnterKeeps(s.endpoints, x);
    hide Consistent, MatchedExcept, Register;
    if Known(s, y) { MatchedPlainly(r, t, p, x, y); }
  }

  /** A discovered endpoint x, in plain terms. */
  lemma AddedRemotely(s: Tables, t: Tables, p: Policy, x: Endpoint, y: Endpoint)
    requires Consistent(s) && !Known(s, x) && MatchedExcept(Discover(s, x, true), t, p, x, {})
    requires x.reader != y.reader && x.topic == y.topic && On(s.endpoints, y) && Local(s, y)
    ensures Lists(t, y, x) <==> (if x.reader then p.compatible(y, x) else p.compatible(x, y)) && !p.deferred(x)
  {
    var d := Discover(s, x, true);
    DiscoverConsistent(s, x, true);
    EnterKeeps(s.endpoints, x);
    assert Known(d, x) && !Local(d, x) && Local(d, y) && !Lists(d, y, x);
    hide Consistent, MatchedExcept, Discover;
    MatchedPlainly(d, t, p, x, y);
  }

  class EndpointManager {
    var pubs: Matched
    var subs: Matched
    var discPubs: set<Endpoint>
    var discSubs: set<Endpoint>
    var endpoints: map<string, set<Endpoint>>

    function Now(): Tables
      reads this
    {
      Tables(pubs, subs, discPubs, discSubs, endpoints)
    }

    method Match(p: Policy, w: Endpoint, r: Endpoint)
      requires !w.reader && r.reader
      modifies this
      ensures Now() == MatchPair(old(Now()), w, r, p.compatible(w, r), Defers(old(Now()), p, w, r))
    {
      var writerLocal, readerLocal, alreadyMatched := false, false, false;
      if w in pubs {
        writerLocal := true;
        alreadyMatched := r in pubs[w];
      } else if w !in discPubs {
        return;
      }
      if r in subs {
        readerLocal := true;
        if !alreadyMatched { alreadyMatched := w in subs[r]; }
      } else if r in discSubs {
        if !writerLocal { return; }
      } else {
        return;
      }
      if p.compatible(w, r) {
        if !writerLocal && p.deferred(w) { return; }
        if !readerLocal && p.deferred(r) { return; }
        if writerLocal { pubs := pubs[w := pubs[w] + {r}]; }
        if readerLocal { subs := subs[r := subs[r] + {w}]; }
      } else if alreadyMatched {
        if writerLocal { pubs := pubs[w := pubs[w] - {r}]; }
        if readerLocal { subs := subs[r := subs[r] - {w}]; }
      }
    }

    /** match_endpoints: afterwards x is matched with every endpoint on its topic exactly as the policy decides from
        what was there at the start, and no other match has changed. */
    method MatchEndpoints(p: Policy, x: Endpoint)
      requires Consistent(Now()) && x.topic in endpoints && (Local(Now(), x) ==> On(endpoints, x))
      modifies this
      ensures MatchedExcept(old(Now()), Now(), p, x, {}) && SameEndpoints(old(Now()), Now())
    {
      hide MatchPair, Decides, Defers, Pair;
      ghost var s := Now();
      var todo := endpoints[x.topic];
      while todo != {}
        invariant endpoints == s.endpoints && todo <= endpoints[x.topic]
        invariant MatchedExcept(s, Now(), p, x, todo)
      {
        ghost var before := todo;
        var y :| y in todo;
        todo := todo - {y};
        assert before == todo + {y};
        if y.reader != x.reader {
          MatchOneMore(s, Now(), p, x, y, todo);
          Match(p, Writer(x, y), Reader(x, y));
        }
      }
    }

    method RemoveAssoc(from: Endpoint, removing: Endpoint)
      modifies this
      ensures Now() == if from.reader then old(Now()).(subs := Drop(old(subs), from, removing))
                       else old(Now()).(pubs := Drop(old(pubs), from, removing))
    {
      if from.reader {
        if from in subs { subs := subs[from := subs[from] - {removing}]; }
      } else {
        if from in pubs { pubs := pubs[from := pubs[from] - {removing}]; }
      }
    }

    /** match_endpoints with remove: the local endpoints on the topic that x faces no longer list x. */
    method UnmatchEndpoints(x: Endpoint)
      requires x.topic in endpoints && KindsHold(pubs, subs)
      modifies this
      ensures x.reader ==> Now() == old(Now()).(pubs := Without(old(pubs), Topic(endpoints, x.topic), {x}))
      ensures !x.reader ==> Now() == old(Now()).(subs := Without(old(subs), Topic(endpoints, x.topic), {x}))
    {
      hide Without, Drop;
      var todo := endpoints[x.topic];
      ghost var done: set<Endpoint> := {};
      ghost var m := if x.reader then pubs else subs;
      WithoutNone(m, {x});
      while todo != {}
        invariant endpoints == old(endpoints) && done + todo == endpoints[x.topic]
        invariant x.reader ==> Now() == old(Now()).(pubs := Without(m, done, {x}))
        invariant !x.reader ==> Now() == old(Now()).(subs := Without(m, done, {x}))
      {
        var y :| y in todo;
        WithoutOneMore(m, done, y, {x}, x);
        if y.reader != x.reader { RemoveAssoc(y, x); }
        todo := todo - {y};
        done := done + {y};
      }
      assert done == endpoints[x.topic];
    }

    /** add_publication or add_subscription: a fresh endpoint ends up matched with exactly the endpoints on its topic
        that are known, compatible, and local or not deferred; with none if it is not permitted or announcing it
        fails. */
    method AddLocal(p: Policy, x: Endpoint, permitted: bool, announced: bool)
      requires Consistent(Now()) && !Known(Now(), x)
      modifies this
      ensures if permitted && announced then MatchedExcept(Register(old(Now()), x, true), Now(), p, x, {})
              else Consistent(Now()) && Now() == Register(old(Now()), x, permitted)
      ensures Local(Now(), x) && (On(endpoints, x) <==> permitted || On(old(endpoints), x))
      ensures !(permitted && announced) ==> forall y :: !Lists(Now(), x, y) && !Lists(Now(), y, x)
      ensures permitted && announced ==>
                forall y: Endpoint :: x.reader != y.reader && x.topic == y.topic && On(old(endpoints), y) ==>
                  var compatible := if x.reader then p.compatible(y, x) else p.compatible(x, y);
                  && (Local(old(Now()), y) ==>
                        (Lists(Now(), x, y) <==> compatible) && (Lists(Now(), y, x) <==> compatible))
                  && (Discovered(old(Now()), y) ==> (Lists(Now(), x, y) <==> compatible && !p.deferred(y)))
    {
      ghost var s := Now();
      RegisterConsistent(Now(), x, permitted);
      hide Consistent, MatchedExcept, Lists;
      NotListed(s, Register(s, x, permitted), x);
      StoreLocal(x, permitted);
      hide Register;
      if !permitted || !announced { return; }
      MatchEndpoints(p, x);
      forall y: Endpoint | x.reader != y.reader && x.topic == y.topic && On(s.endpoints, y) {
        AddedLocally(s, Now(), p, x, y);
      }
    }

    /** The endpoint is remembered, and put on its topic if permitted. */
    method StoreLocal(x: Endpoint, permitted: bool)
      modifies this
      ensures Now() == Register(old(Now()), x, permitted)
      ensures Local(Now(), x) && (On(endpoints, x) <==> permitted || On(old(endpoints), x))
      ensures permitted ==> x.topic in endpoints
    {
      if x.reader { subs := subs[x := {}]; } else { pubs := pubs[x := {}]; }
      if permitted { endpoints := Enter(endpoints, x); }
    }

    /** remove_publication or remove_subscription. */
    method RemoveLocal(x: Endpoint)
      requires Consistent(Now())
      modifies this
      ensures Consistent(Now())
      ensures Now() == if Local(old(Now()), x) then Forget(old(Now()), x) else old(Now())
    {
      ghost var s := Now();
      assert KindsHold(pubs, subs) && (Local(s, x) ==> !Discovered(s, x));
      ForgetConsistent(s, x);
      WithoutNone(if x.reader then pubs else subs, {x});
      hide Consistent, Without;
      if x.reader && x in subs {
        subs := subs - {x};
      } else if !x.reader && x in pubs {
        pubs := pubs - {x};
      } else {
        return;
      }
      if x.topic in endpoints {
        UnmatchEndpoints(x);
        endpoints := Leave(endpoints, x);
      }
      assert Now() == Forget(s, x);
    }

    /** A discovered endpoint arrives: it is matched at once unless its type is inconsistent. */
    method AddDiscovered(p: Policy, x: Endpoint, consistentType: bool)
      requires Consistent(Now()) && !Known(Now(), x)
      modifies this
      ensures if consistentType then MatchedExcept(Discover(old(Now()), x, true), Now(), p, x, {})
              else Consistent(Now()) && Now() == Discover(old(Now()), x, false)
      ensures Discovered(Now(), x) && (On(endpoints, x) <==> consistentType || On(old(endpoints), x))
      ensures !consistentType ==> forall y :: !Lists(Now(), y, x)
      ensures consistentType ==>
                forall y: Endpoint ::
                  x.reader != y.reader && x.topic == y.topic && On(old(endpoints), y) && Local(old(Now()), y) ==>
                  (Lists(Now(), y, x) <==>
                     (if x.reader then p.compatible(y, x) else p.compatible(x, y)) && !p.deferred(x))
    {
      ghost var s := Now();
      hide Consistent, MatchedExcept, Lists;
      DiscoverConsistent(Now(), x, consistentType);
      NotListed(s, Discover(s, x, consistentType), x);
      if x.reader { discSubs := discSubs + {x}; } else { discPubs := discPubs + {x}; }
      if consistentType {
        endpoints := Enter(endpoints, x);
        MatchEndpoints(p, x);
        forall y: Endpoint | x.reader != y.reader && x.topic == y.topic && On(s.endpoints, y) && Local(s, y) {
          AddedRemotely(s, Now(), p, x, y);
        }
      }
    }

    /** ignore, and disposal by its participant: a discovered endpoint is forgotten. */
    method RemoveDiscovered(x: Endpoint)
      requires Consistent(Now())
      modifies this
      ensures Consistent(Now())
      ensures Now() == if Discovered(old(Now()), x) then Forget(old(Now()), x) else old(Now())
    {
      ghost var s := Now();
      assert KindsHold(pubs, subs);
      ForgetConsistent(s, x);
      if Discovered(s, x) { ForgetDiscovered(s, x); }
      WithoutNone(if x.reader then pubs else subs, {x});
      hide Consistent, Without, Forget;
      if Discovered(Now(), x) {
        endpoints := Leave(endpoints, x);
        if x.reader { discSubs := discSubs - {x}; } else { discPubs := discPubs - {x}; }
        if x.topic in endpoints { UnmatchEndpoints(x); }
      }
    }

    /** ignore of a topic. */
    method IgnoreTopicName(topic: string)
      requires Consistent(Now())
      modifies this
      ensures Consistent(Now()) && Now() == IgnoreTopic(old(Now()), topic)
    {
      ghost var s := Now();
      IgnoreTopicConsistent(s, topic);
      if topic in endpoints {
        var all := endpoints[topic];
        var todo := all;
        ghost var done: set<Endpoint> := {};
        assert forall x <- all :: x.topic == topic;
        assert KindsHold(pubs, subs);
        hide Consistent, Without, KindsHold;
        WithoutNone(pubs, all);
        WithoutNone(subs, all);
        while todo != {}
          invariant done + todo == all && endpoints == s.endpoints && KindsHold(pubs, subs)
          invariant Now() == s.(pubs := Without(s.pubs, all, done), subs := Without(s.subs, all, done))
        {
          var x :| x in todo;
          WithoutOneMore(s.pubs, all, x, done, x);
          WithoutOneMore(s.subs, all, x, done, x);
          WithoutOwnKind(s, all, done, x);
          UnmatchEndpoints(x);
          KindsByKeys(s.pubs, s.subs, pubs, subs);
          todo := todo - {x};
          done := done + {x};
        }
        assert done == all;
      } else {
        WithoutNone(pubs, {});
        WithoutNone(subs, {});
      }
    }
  }
}
