/**
 * Which records the authority and additional sections hold when there is room for all of them: a record is
 * there just when the zones found for the questions and for the servers they name give cause for it.
 */
module PlannedSections {
  import opened Bytes
  import opened DomainNames
  import opened Zones
  import opened LabelHeaders
  import opened Answers
  import opened DnsPlans
  import opened AnswersByType

  // ---- Zones that are told apart ----

  /** A zone that can be found, or that lies above one that can. */
  ghost predicate IsKnown(mgr: ZoneMgr, z: Zone) {
    exists key, n: nat :: Finds(mgr, key, n, z)
  }

  predicate Finds(mgr: ZoneMgr, key: seq<bytes>, n: nat, z: Zone) {
    var found := mgr.lookup(key).zone;
    found.Some? && Ancestor(found.value, n) == Some(z)
  }

  /** Where looking up twice gives the same object, the object tells the zone. */
  ghost predicate Identified(mgr: ZoneMgr) {
    mgr.shared ==> forall y, z :: IsKnown(mgr, y) && IsKnown(mgr, z) && y.id == z.id ==> y == z
  }

  ghost predicate AllKnown(mgr: ZoneMgr, zones: seq<Zone>) {
    forall k :: 0 <= k < |zones| ==> IsKnown(mgr, zones[k])
  }

  lemma FoundIsKnown(mgr: ZoneMgr, key: seq<bytes>)
    requires mgr.lookup(key).zone.Some?
    ensures IsKnown(mgr, mgr.lookup(key).zone.value)
  {
    assert Finds(mgr, key, 0, mgr.lookup(key).zone.value);
  }

  /** A list of zones takes up a zone that is not in it. */
  lemma ZoneAdded(mgr: ZoneMgr, zones: seq<Zone>, zone: Option<Zone>)
    requires Identified(mgr) && AllKnown(mgr, zones) && (zone.Some? ==> IsKnown(mgr, zone.value))
    ensures AllKnown(mgr, mgr.AddZone(zones, zone))
    ensures forall z :: z in mgr.AddZone(zones, zone) <==> z in zones || zone == Some(z)
  {
    hide IsKnown;
  }

  /** A server that is the zone of one of these names. */
  predicate IsServer(mgr: ZoneMgr, names: seq<bytes>, z: Zone) {
    exists i :: 0 <= i < |names| && mgr.lookup(Fragments(names[i])).zone == Some(z)
  }

  lemma IsServerCons(mgr: ZoneMgr, names: seq<bytes>, z: Zone)
    requires names != []
    ensures IsServer(mgr, names, z) <==>
              mgr.lookup(Fragments(names[0])).zone == Some(z) || IsServer(mgr, names[1..], z)
  {
    hide Fragments;
    if IsServer(mgr, names, z) {
      var i :| 0 <= i < |names| && mgr.lookup(Fragments(names[i])).zone == Some(z);
      assert i > 0 ==> names[1..][i - 1] == names[i];
    }
    if IsServer(mgr, names[1..], z) {
      var i :| 0 <= i < |names[1..]| && mgr.lookup(Fragments(names[1..][i])).zone == Some(z);
      assert names[i + 1] == names[1..][i];
    }
  }

  lemma {:induction false} ServersAdded(mgr: ZoneMgr, zones: seq<Zone>, names: seq<bytes>)
    requires Identified(mgr) && AllKnown(mgr, zones)
    ensures AllKnown(mgr, mgr.AddServers(zones, names))
    ensures forall z :: z in mgr.AddServers(zones, names) <==> z in zones || IsServer(mgr, names, z)
    decreases |names|
  {
    hide IsKnown, Identified, AllKnown, Fragments, ZoneMgr.AddZone;
    if names != [] {
      hide IsServer;
      var first := mgr.lookup(Fragments(names[0])).zone;
      if first.Some? { FoundIsKnown(mgr, Fragments(names[0])); }
      ZoneAdded(mgr, zones, first);
      ServersAdded(mgr, mgr.AddZone(zones, first), names[1..]);
      forall z ensures IsServer(mgr, names, z) <==> first == Some(z) || IsServer(mgr, names[1..], z) {
        IsServerCons(mgr, names, z);
      }
    }
  }

  // ---- Records ----

  /** An address of this zone, under its own domain name. */
  predicate AddressOf(z: Zone, p: Planned) {
    p.owner == ByName(z.GetDomainName()) &&
    ((p.rdata.A? && p.rdata.ip4 in ListOf(z.data.a)) || (p.rdata.Aaaa? && p.rdata.ip6 in ListOf(z.data.aaaa)))
  }

  /** One of the name servers of this zone, in full. */
  predicate NameServerOf(z: Zone, p: Planned) {
    p.owner == ByName(z.GetDomainName()) && p.rdata.Ns? &&
    exists host :: host in ListOf(z.data.ns) && p.rdata.host == HostOf(z, host)
  }

  /** This zone is one of the name servers of that one. */
  predicate Serves(mgr: ZoneMgr, z: Zone, y: Zone) {
    exists host :: host in ListOf(y.data.ns) && mgr.lookup(Fragments(HostOf(y, host))).zone == Some(z)
  }

  lemma AddressesOfZone(z: Zone, p: Planned)
    ensures p in PlanAddresses(ByName(z.GetDomainName()), z.data) <==> AddressOf(z, p)
  {
    var owner := ByName(z.GetDomainName());
    hide Zone.GetDomainName;
    var a, aaaa := PlanA(owner, z.data), PlanAaaa(owner, z.data);
    if AddressOf(z, p) {
      if p.rdata.A? {
        var k :| 0 <= k < |ListOf(z.data.a)| && ListOf(z.data.a)[k] == p.rdata.ip4;
        assert a[k] == p;
      } else {
        var k :| 0 <= k < |ListOf(z.data.aaaa)| && ListOf(z.data.aaaa)[k] == p.rdata.ip6;
        assert aaaa[k] == p;
      }
    }
  }

  lemma ServersOfZone(z: Zone, p: Planned)
    ensures p in PlanNs(z, NsHosts(z.data)) <==> NameServerOf(z, p)
  {
    var hosts := NsHosts(z.data);
    hide Zone.GetDomainName;
    assert hosts == ListOf(z.data.ns);
    if NameServerOf(z, p) {
      var host :| host in ListOf(z.data.ns) && p.rdata.host == HostOf(z, host);
      var k :| 0 <= k < |hosts| && hosts[k] == host;
      assert PlanNs(z, hosts)[k] == p;
    }
    if p in PlanNs(z, hosts) {
      var k :| 0 <= k < |hosts| && PlanNs(z, hosts)[k] == p;
      assert p.rdata.host == HostOf(z, hosts[k]);
    }
  }

  lemma ServesIs(mgr: ZoneMgr, y: Zone, z: Zone)
    ensures IsServer(mgr, mgr.ServerNames(y, NsHosts(y.data)), z) <==> Serves(mgr, z, y)
  {
    hide Zone.GetDomainName, Fragments;
    var hosts := NsHosts(y.data);
    var names := mgr.ServerNames(y, hosts);
    assert hosts == ListOf(y.data.ns);
    if Serves(mgr, z, y) {
      var host :| host in ListOf(y.data.ns) && mgr.lookup(Fragments(HostOf(y, host))).zone == Some(z);
      var k :| 0 <= k < |hosts| && hosts[k] == host;
      assert names[k] == HostOf(y, host);
    }
    if IsServer(mgr, names, z) {
      var k :| 0 <= k < |names| && mgr.lookup(Fragments(names[k])).zone == Some(z);
      assert names[k] == HostOf(y, hosts[k]);
    }
  }

  /** Membership at the end of a list. */
  lemma InSnoc<T>(s: seq<T>, x: T)
    requires s != []
    ensures x in s <==> x in s[..|s| - 1] || x == s[|s| - 1]
  {
    if x in s {
      var k :| 0 <= k < |s| && s[k] == x;
      assert k < |s| - 1 ==> s[..|s| - 1][k] == x;
    }
  }

  lemma {:induction false} AuthorityHolds(mgr: ZoneMgr, zones: seq<Zone>, p: Planned)
    ensures p in mgr.PlanAuthority(zones) <==> exists z :: z in zones && NameServerOf(z, p)
    decreases |zones|
  {
    hide PlanNs, NsHosts, NameServerOf;
    if zones != [] {
      var last := zones[|zones| - 1];
      AuthorityHolds(mgr, zones[..|zones| - 1], p);
      ServersOfZone(last, p);
      forall z ensures z in zones <==> z in zones[..|zones| - 1] || z == last { InSnoc(zones, z); }
    }
  }

  lemma {:induction false} AdditionalHolds(mgr: ZoneMgr, zones: seq<Zone>, p: Planned)
    ensures p in mgr.PlanAdditional(zones) <==> exists z :: z in zones && AddressOf(z, p)
    decreases |zones|
  {
    hide PlanAddresses, AddressOf;
    if zones != [] {
      var last := zones[|zones| - 1];
      AdditionalHolds(mgr, zones[..|zones| - 1], p);
      AddressesOfZone(last, p);
      forall z ensures z in zones <==> z in zones[..|zones| - 1] || z == last { InSnoc(zones, z); }
    }
  }

  lemma {:induction false} NameServersAre(mgr: ZoneMgr, servers: seq<Zone>, zones: seq<Zone>)
    requires Identified(mgr) && AllKnown(mgr, servers)
    ensures AllKnown(mgr, mgr.WithNameServers(servers, zones))
    ensures forall z :: z in mgr.WithNameServers(servers, zones) <==>
                          z in servers || exists y :: y in zones && Serves(mgr, z, y)
    decreases |zones|
  {
    hide IsKnown, Identified, AllKnown, Fragments, ZoneMgr.AddServers, ZoneMgr.ServerNames, NsHosts, Serves, IsServer;
    if zones != [] {
      var front, last := zones[..|zones| - 1], zones[|zones| - 1];
      NameServersAre(mgr, servers, front);
      ServersAdded(mgr, mgr.WithNameServers(servers, front), mgr.ServerNames(last, NsHosts(last.data)));
      forall z ensures IsServer(mgr, mgr.ServerNames(last, NsHosts(last.data)), z) <==> Serves(mgr, z, last) {
        ServesIs(mgr, last, z);
      }
      forall z ensures z in zones <==> z in front || z == last { InSnoc(zones, z); }
    }
  }

  /** One more name: its zone goes to the end of the list, unless there is none, or the same object is there. */
  lemma NextServer(mgr: ZoneMgr, zones: seq<Zone>, names: seq<bytes>, n: bytes)
    ensures var before, found := mgr.AddServers(zones, names), mgr.lookup(Fragments(n)).zone;
            mgr.AddServers(zones, names + [n]) ==
              if found.None? || (mgr.shared && exists z :: z in before && z.id == found.value.id) then before
              else before + [found.value]
  {
    hide Fragments;
    AddServersSnoc(mgr, zones, names, n);
    hide ZoneMgr.AddServers;
    var before, found := mgr.AddServers(zones, names), mgr.lookup(Fragments(n)).zone;
    if found.Some? && exists z :: z in before && z.id == found.value.id {
      var z :| z in before && z.id == found.value.id;
      var k :| 0 <= k < |before| && before[k] == z;
    }
  }

  // ---- Questions ----

  predicate AnswerTo(mgr: ZoneMgr, q: Question, p: Planned) {
    mgr.PlanQuestion(q).Ok? && p in mgr.PlanQuestion(q).value.answers
  }

  predicate AuthorityFor(mgr: ZoneMgr, q: Question, z: Zone) {
    mgr.PlanQuestion(q).Ok? && mgr.PlanQuestion(q).value.authority == Some(z)
  }

  predicate ServerFor(mgr: ZoneMgr, q: Question, z: Zone) {
    mgr.PlanQuestion(q).Ok? && IsServer(mgr, mgr.PlanQuestion(q).value.servers, z)
  }

  /** The lists hold what some question gives cause for, and the flag is on if it is on for all of them. */
  ghost predicate GatheredFor(mgr: ZoneMgr, qs: seq<Question>, g: Gathered) {
    AllKnown(mgr, g.authority) && AllKnown(mgr, g.servers) &&
    (forall p :: p in g.answers <==> exists q :: q in qs && AnswerTo(mgr, q, p)) &&
    (forall z :: z in g.authority <==> exists q :: q in qs && AuthorityFor(mgr, q, z)) &&
    (forall z :: z in g.servers <==> exists q :: q in qs && ServerFor(mgr, q, z)) &&
    (g.authoritative <==> forall q :: q in qs ==> IsAuthoritative(mgr, q))
  }

  predicate IsAuthoritative(mgr: ZoneMgr, q: Question) {
    mgr.PlanQuestion(q).Ok? && mgr.PlanQuestion(q).value.authoritative
  }

  lemma AuthorityIsKnown(mgr: ZoneMgr, q: Question, z: Zone)
    requires AuthorityFor(mgr, q, z)
    ensures IsKnown(mgr, z)
  {
    QuestionIs(mgr, q);
    hide ZoneMgr.PlanQuestion, Answered, ServersAre, Ancestor;
    var found := mgr.lookup(q.labels).zone.value;
    var n: nat :| Nearest(found, n) && Ancestor(found, n) == Some(z);
    assert Finds(mgr, q.labels, n, z);
  }

  lemma NothingGathered(mgr: ZoneMgr)
    ensures GatheredFor(mgr, [], Gathered([], true, [], []))
  {
  }

  lemma MoreAnswers(mgr: ZoneMgr, qs: seq<Question>, q: Question, an: seq<Planned>, p: Planned)
    requires mgr.PlanQuestion(q).Ok? && (p in an <==> exists x :: x in qs && AnswerTo(mgr, x, p))
    ensures p in an + mgr.PlanQuestion(q).value.answers <==> exists x :: x in qs + [q] && AnswerTo(mgr, x, p)
  {
    hide ZoneMgr.PlanQuestion;
    assert forall x :: x in qs + [q] <==> x in qs || x == q;
    assert AnswerTo(mgr, q, p) <==> p in mgr.PlanQuestion(q).value.answers;
    hide AnswerTo;
  }

  lemma MoreAuthority(mgr: ZoneMgr, qs: seq<Question>, q: Question, zones: seq<Zone>, z: Zone)
    requires mgr.PlanQuestion(q).Ok? && (z in zones <==> exists x :: x in qs && AuthorityFor(mgr, x, z))
    ensures z in zones || mgr.PlanQuestion(q).value.authority == Some(z)
            <==> exists x :: x in qs + [q] && AuthorityFor(mgr, x, z)
  {
    hide ZoneMgr.PlanQuestion;
    assert forall x :: x in qs + [q] <==> x in qs || x == q;
    assert AuthorityFor(mgr, q, z) <==> mgr.PlanQuestion(q).value.authority == Some(z);
    hide AuthorityFor;
  }

  lemma MoreServers(mgr: ZoneMgr, qs: seq<Question>, q: Question, zones: seq<Zone>, z: Zone)
    requires mgr.PlanQuestion(q).Ok? && (z in zones <==> exists x :: x in qs && ServerFor(mgr, x, z))
    ensures z in zones || IsServer(mgr, mgr.PlanQuestion(q).value.servers, z)
            <==> exists x :: x in qs + [q] && ServerFor(mgr, x, z)
  {
    hide ZoneMgr.PlanQuestion, IsServer;
    assert forall x :: x in qs + [q] <==> x in qs || x == q;
    assert ServerFor(mgr, q, z) <==> IsServer(mgr, mgr.PlanQuestion(q).value.servers, z);
    hide ServerFor;
  }

  lemma MoreAuthoritative(mgr: ZoneMgr, qs: seq<Question>, q: Question)
    ensures (forall x :: x in qs + [q] ==> IsAuthoritative(mgr, x)) <==>
              (forall x :: x in qs ==> IsAuthoritative(mgr, x)) && IsAuthoritative(mgr, q)
  {
    hide IsAuthoritative;
    assert forall x :: x in qs + [q] <==> x in qs || x == q;
  }

  lemma OneMore(mgr: ZoneMgr, qs: seq<Question>, q: Question, g: Gathered)
    requires Identified(mgr) && GatheredFor(mgr, qs, g) && mgr.PlanQuestion(q).Ok?
    ensures GatheredFor(mgr, qs + [q], mgr.Add(g, mgr.PlanQuestion(q).value))
  {
    hide IsKnown, Identified, AllKnown, Fragments, ZoneMgr.AddServers, ZoneMgr.AddZone, ZoneMgr.PlanQuestion, IsServer,
         AnswerTo, AuthorityFor, ServerFor;
    var plan := mgr.PlanQuestion(q).value;
    if plan.authority.Some? {
      assert AuthorityFor(mgr, q, plan.authority.value) by { Its(mgr, q); }
      AuthorityIsKnown(mgr, q, plan.authority.value);
    }
    ZoneAdded(mgr, g.authority, plan.authority);
    ServersAdded(mgr, g.servers, plan.servers);
    MoreAuthoritative(mgr, qs, q);
    var now := mgr.Add(g, plan);
    assert now.authoritative <==> forall x :: x in qs + [q] ==> IsAuthoritative(mgr, x);
    hide IsAuthoritative;
    forall p ensures p in now.answers <==> exists x :: x in qs + [q] && AnswerTo(mgr, x, p) {
      MoreAnswers(mgr, qs, q, g.answers, p);
    }
    forall z ensures z in now.authority <==> exists x :: x in qs + [q] && AuthorityFor(mgr, x, z) {
      MoreAuthority(mgr, qs, q, g.authority, z);
    }
    forall z ensures z in now.servers <==> exists x :: x in qs + [q] && ServerFor(mgr, x, z) {
      MoreServers(mgr, qs, q, g.servers, z);
    }
  }

  lemma Its(mgr: ZoneMgr, q: Question)
    requires mgr.PlanQuestion(q).Ok? && mgr.PlanQuestion(q).value.authority.Some?
    ensures AuthorityFor(mgr, q, mgr.PlanQuestion(q).value.authority.value)
  {
  }

  lemma {:induction false} GatheredAre(mgr: ZoneMgr, qs: seq<Question>)
    requires Identified(mgr) && mgr.PlanQuestions(qs).Ok?
    ensures GatheredFor(mgr, qs, mgr.PlanQuestions(qs).value)
    decreases |qs|
  {
    hide Identified, GatheredFor, ZoneMgr.PlanQuestion, ZoneMgr.Add;
    if qs == [] {
      NothingGathered(mgr);
    } else {
      var front, last := qs[..|qs| - 1], qs[|qs| - 1];
      GatheredAre(mgr, front);
      OneMore(mgr, front, last, mgr.PlanQuestions(front).value);
      assert front + [last] == qs;
    }
  }

  /** A name server of a zone that some question has for its authority. */
  ghost predicate InAuthority(mgr: ZoneMgr, qs: seq<Question>, p: Planned) {
    exists q, z :: q in qs && AuthorityFor(mgr, q, z) && NameServerOf(z, p)
  }

  /** A zone that serves: it is named as a mail exchanger, or as a name server of an authority. */
  ghost predicate Named(mgr: ZoneMgr, qs: seq<Question>, t: Zone) {
    exists q :: q in qs && (ServerFor(mgr, q, t) || exists y :: AuthorityFor(mgr, q, y) && Serves(mgr, t, y))
  }

  /**
   * The three sections, were there room for all of it: the answers to the questions; the name servers of
   * their authorities; and the addresses of those servers and of the mail exchangers, as far as these are
   * zones that can be found.
   */
  lemma WholePlanIs(mgr: ZoneMgr, qs: seq<Question>)
    requires Identified(mgr) && mgr.WholePlan(qs).Ok?
    ensures var plan := mgr.WholePlan(qs).value;
            (forall p :: p in plan.answers <==> exists q :: q in qs && AnswerTo(mgr, q, p)) &&
            (forall p :: p in plan.authority <==> InAuthority(mgr, qs, p)) &&
            (forall p :: p in plan.additional <==> exists t :: Named(mgr, qs, t) && AddressOf(t, p)) &&
            (plan.authoritative <==> forall q :: q in qs ==> IsAuthoritative(mgr, q))
  {
    hide Identified, ZoneMgr.PlanQuestions, ZoneMgr.PlanQuestion, ZoneMgr.PlanAuthority, ZoneMgr.PlanAdditional,
         ZoneMgr.WithNameServers, AuthorityFor, ServerFor, Serves, NameServerOf, AddressOf, AnswerTo, AllKnown;
    var g := mgr.PlanQuestions(qs).value;
    GatheredAre(mgr, qs);
    NameServersAre(mgr, g.servers, g.authority);
    forall p ensures p in mgr.PlanAuthority(g.authority) <==> exists z :: z in g.authority && NameServerOf(z, p) {
      AuthorityHolds(mgr, g.authority, p);
    }
    var zones := mgr.WithNameServers(g.servers, g.authority);
    forall p ensures p in mgr.PlanAdditional(zones) <==> exists t :: t in zones && AddressOf(t, p) {
      AdditionalHolds(mgr, zones, p);
    }
    assert forall t :: t in zones <==> Named(mgr, qs, t);
  }

  /** A query of one question, record by record: its answers, and the name servers of its authority in order. */
  lemma OneQuestion(mgr: ZoneMgr, q: Question)
    requires mgr.PlanQuestion(q).Ok?
    ensures var one, plan := mgr.PlanQuestion(q).value, mgr.WholePlan([q]);
            plan.Ok? && plan.value.answers == one.answers && plan.value.authoritative == one.authoritative &&
            if one.authority.None? then plan.value.authority == []
            else
              var z := one.authority.value;
              |plan.value.authority| == |ListOf(z.data.ns)| &&
              forall k :: 0 <= k < |ListOf(z.data.ns)| ==>
                plan.value.authority[k] == Planned(ByName(z.GetDomainName()), Ns(HostOf(z, z.data.ns.value[k])))
  {
    hide ZoneMgr.PlanQuestion, ZoneMgr.PlanAdditional, ZoneMgr.WithNameServers, ZoneMgr.AddServers, Zone.GetDomainName;
    var one := mgr.PlanQuestion(q).value;
    assert [q][..0] == [] && mgr.PlanQuestions([]).Ok?;
    assert mgr.PlanQuestions([q]) == Ok(mgr.Add(Gathered([], true, [], []), one));
    assert [] + one.answers == one.answers;
    if one.authority.Some? {
      var z := one.authority.value;
      assert mgr.AddZone([], one.authority) == [z];
      assert [z][..0] == [];
      assert mgr.PlanAuthority([z]) == [] + PlanNs(z, NsHosts(z.data));
    }
  }
}
