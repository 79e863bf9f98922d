/**
 * What each question is answered with, by the number of its type: record by record, in terms of the fields
 * of the zone that is found for it.
 */
module AnswersByType {
  import opened Bytes
  import opened DomainNames
  import opened Zones
  import opened LabelHeaders
  import opened Answers
  import opened DnsPlans

  // ---- The zones above ----

  /** The n-th zone from this one up. */
  function Ancestor(z: Zone, n: nat): Option<Zone>
    decreases n
  {
    if n == 0 then Some(z) else if z.parent.None? then None else Ancestor(z.parent.value, n - 1)
  }

  predicate HasSoa(z: Zone, n: nat) {
    var up := Ancestor(z, n);
    up.Some? && up.value.data.soa.Some?
  }

  /** The n-th zone up has an SOA record, and no zone below it does. */
  predicate Nearest(z: Zone, n: nat) {
    HasSoa(z, n) && forall m :: 0 <= m < n ==> !HasSoa(z, m)
  }

  ghost predicate NoSoa(z: Zone) {
    forall n: nat :: !HasSoa(z, n)
  }

  lemma {:induction false} SoaZoneIs(z: Zone) returns (n: nat)
    ensures z.SoaZone().Some? ==> Nearest(z, n) && Ancestor(z, n) == z.SoaZone()
    ensures z.SoaZone().None? ==> NoSoa(z)
    decreases z
  {
    n := 0;
    assert Ancestor(z, 0) == Some(z);
    if z.data.soa.None? && z.parent.Some? {
      var m := SoaZoneIs(z.parent.value);
      n := m + 1;
      assert forall k: nat :: k > 0 ==> Ancestor(z, k) == Ancestor(z.parent.value, k - 1);
      assert forall k: nat :: k > 0 ==> HasSoa(z, k) == HasSoa(z.parent.value, k - 1);
    } else if z.data.soa.None? {
      assert forall k: nat :: k > 0 ==> Ancestor(z, k).None?;
    }
  }

  lemma NearestIsOne(z: Zone, m: nat, n: nat)
    requires Nearest(z, m) && Nearest(z, n)
    ensures m == n
  {
  }

  lemma NothingNearest(z: Zone)
    requires NoSoa(z)
    ensures forall n: nat :: !Nearest(z, n)
  {
    hide HasSoa;
  }

  // ---- Fields of a zone ----

  function ListOf<T>(o: Option<seq<T>>): seq<T> {
    if o.Some? then o.value else []
  }

  /** A zone with an alias has no addresses of its own to answer with. */
  predicate IsAlias(z: ZoneData) {
    z.cname.Some? && z.cname.value != []
  }

  /** The alias in full: what does not end in a dot goes on with the domain of the parent. */
  function AliasOf(z: Zone): bytes
    requires IsAlias(z.data)
  {
    var name := z.data.cname.value;
    if name[|name| - 1] == 46 || z.parent.None? then name else name + [46] + z.parent.value.GetDomainName()
  }

  /** A host of a zone in full. */
  function HostOf(z: Zone, host: bytes): bytes {
    if z.GetDomainName() == [] then host else host + [46] + z.GetDomainName()
  }

  /** The records are the addresses of this zone, IPv4 first, each owned by this name. */
  predicate AddressesOf(ps: seq<Planned>, z: ZoneData, owner: PlannedOwner) {
    var a, aaaa := ListOf(z.a), ListOf(z.aaaa);
    |ps| == |a| + |aaaa| && (forall k :: 0 <= k < |a| ==> ps[k] == Planned(owner, A(a[k]))) &&
    forall k :: 0 <= k < |aaaa| ==> ps[|a| + k] == Planned(owner, Aaaa(aaaa[k]))
  }

  // ---- One question ----

  /** The answers to a question that is answered from this zone, type by type. */
  ghost predicate Answered(mgr: ZoneMgr, q: Question, z: Zone, an: seq<Planned>) {
    match q.qtype
    case 1 =>
      if !IsAlias(z.data) then
        |an| == |ListOf(z.data.a)| &&
        forall k :: 0 <= k < |an| ==> an[k] == Planned(AtQuestion(q), A(z.data.a.value[k]))
      else
        var target := mgr.lookup(Fragments(AliasOf(z))).zone;
        an != [] && an[0] == Planned(AtQuestion(q), Cname(AliasOf(z))) &&
        if target.Some? then AddressesOf(an[1..], target.value.data, ByName(AliasOf(z))) else |an| == 1
    case 28 =>
      if !IsAlias(z.data) then
        |an| == |ListOf(z.data.aaaa)| &&
        forall k :: 0 <= k < |an| ==> an[k] == Planned(AtQuestion(q), Aaaa(z.data.aaaa.value[k]))
      else an == [Planned(AtQuestion(q), Cname(AliasOf(z)))]
    case 5 => an == if IsAlias(z.data) then [Planned(AtQuestion(q), Cname(AliasOf(z)))] else []
    case 15 =>
      |an| == |ListOf(z.data.mx)| &&
      forall k :: 0 <= k < |an| ==>
        an[k] == Planned(AtQuestion(q), Answers.Mx(z.data.mx.value[k].priority % 65536,
                                                   HostOf(z, z.data.mx.value[k].fqdn)))
    case 16 =>
      an == if z.data.txt.Some? && z.data.txt.value != [] then [Planned(AtQuestion(q), Txt(z.data.txt.value))] else []
    case 6 =>
      |an| == 1 && exists n :: Nearest(z, n) &&
                     an[0] == Planned(AtQuestion(q), Answers.Soa(Ancestor(z, n).value.data.soa.value,
                                                                 Ancestor(z, n).value.Labels()))
    case 255 =>
      an == (if IsAlias(z.data) then [Planned(AtQuestion(q), Cname(AliasOf(z)))] else []) +
            (if z.data.txt.Some? && z.data.txt.value != [] then [Planned(AtQuestion(q), Txt(z.data.txt.value))] else [])
    case _ => an == []
  }

  /** The zone whose name servers go into the authority section: the nearest one with an SOA record. */
  ghost predicate AuthorityIs(q: Question, z: Zone, authority: Option<Zone>) {
    if q.qtype == 2 || q.qtype == 6 || q.qtype == 255 then
      if authority.Some? then exists n :: Nearest(z, n) && Ancestor(z, n) == authority else NoSoa(z)
    else authority == None
  }

  /** The hosts whose addresses may go into the additional section. */
  predicate ServersAre(q: Question, z: Zone, servers: seq<bytes>) {
    if q.qtype == 15 then
      |servers| == |ListOf(z.data.mx)| &&
      forall k :: 0 <= k < |servers| ==> servers[k] == HostOf(z, z.data.mx.value[k].fqdn)
    else servers == []
  }

  lemma AliasIs(z: Zone)
    ensures z.data.HaveCname() <==> IsAlias(z.data)
    ensures IsAlias(z.data) ==> FullCname(z) == AliasOf(z)
  {
  }

  lemma HostIs(z: Zone, host: bytes)
    ensures Fqdn(host, z.GetDomainName()) == HostOf(z, host)
  {
  }

  lemma PlanAIs(owner: PlannedOwner, data: ZoneData)
    ensures var a, p := ListOf(data.a), PlanA(owner, data);
            |p| == |a| && forall k :: 0 <= k < |a| ==> p[k] == Planned(owner, A(a[k]))
  {
  }

  lemma PlanAaaaIs(owner: PlannedOwner, data: ZoneData)
    ensures var aaaa, p := ListOf(data.aaaa), PlanAaaa(owner, data);
            |p| == |aaaa| && forall k :: 0 <= k < |aaaa| ==> p[k] == Planned(owner, Aaaa(aaaa[k]))
  {
  }

  lemma AddressesAre(owner: PlannedOwner, data: ZoneData)
    ensures AddressesOf(PlanAddresses(owner, data), data, owner)
  {
    PlanAIs(owner, data);
    PlanAaaaIs(owner, data);
    hide PlanA, PlanAaaa, ListOf;
    var a, aaaa, ps := ListOf(data.a), ListOf(data.aaaa), PlanAddresses(owner, data);
    forall k | 0 <= k < |aaaa| ensures ps[|a| + k] == Planned(owner, Aaaa(aaaa[k])) {
      assert ps[|a| + k] == PlanAaaa(owner, data)[k];
    }
  }

  /** Questions for addresses, and for everything. */
  lemma AddressAnswersAre(mgr: ZoneMgr, q: Question, z: Zone)
    requires q.qtype == 1 || q.qtype == 28
    ensures Answered(mgr, q, z, mgr.AddressAnswers(q, z))
  {
    AliasIs(z);
    hide FullCname, PlanAddresses, AddressesOf;
    if IsAlias(z.data) {
      var target := mgr.lookup(Fragments(AliasOf(z))).zone;
      var rest := if q.qtype == 1 && target.Some? then PlanAddresses(ByName(AliasOf(z)), target.value.data) else [];
      if target.Some? { AddressesAre(ByName(AliasOf(z)), target.value.data); }
      var an := mgr.AddressAnswers(q, z);
      assert an == [Planned(AtQuestion(q), Cname(AliasOf(z)))] + rest && an[1..] == rest;
    }
  }

  lemma MxAre(mgr: ZoneMgr, q: Question, z: Zone)
    requires q.qtype == 15
    ensures Answered(mgr, q, z, mgr.MainAnswers(q, z))
    ensures ServersAre(q, z, mgr.ServerNames(z, MxHosts(z.data)))
  {
    hide Fqdn, HostOf;
    if z.data.mx.Some? {
      forall k | 0 <= k < |z.data.mx.value|
        ensures PlanMx(q, z, z.data.mx.value)[k] ==
                Planned(AtQuestion(q), Answers.Mx(z.data.mx.value[k].priority % 65536,
                                                  HostOf(z, z.data.mx.value[k].fqdn)))
        ensures mgr.ServerNames(z, MxHosts(z.data))[k] == HostOf(z, z.data.mx.value[k].fqdn)
      {
        NthMx(mgr, q, z, k);
        HostIs(z, z.data.mx.value[k].fqdn);
      }
    }
  }

  lemma SoaIs(mgr: ZoneMgr, q: Question, z: Zone)
    requires q.qtype == 6 && z.SoaZone().Some?
    ensures Answered(mgr, q, z, mgr.MainAnswers(q, z))
  {
    var n := SoaZoneIs(z);
    hide Zone.SoaZone, Ancestor, Nearest, Zone.Labels;
    assert Ancestor(z, n).value == z.SoaZone().value;
  }

  lemma AnswersAre(mgr: ZoneMgr, q: Question, z: Zone)
    requires q.qtype == 6 ==> z.SoaZone().Some?
    ensures Answered(mgr, q, z, mgr.MainAnswers(q, z) + mgr.TextAnswers(q, z))
  {
    var main, text := mgr.MainAnswers(q, z), mgr.TextAnswers(q, z);
    AliasIs(z);
    if q.qtype == 16 {
      assert main == [];
      assert [] + text == text;
    } else if q.qtype == 255 {
      hide Answered, FullCname, AliasOf;
      assert Answered(mgr, q, z, main + text) by { EverythingIs(mgr, q, z); }
    } else {
      assert text == [];
      assert main + [] == main;
      hide FullCname, AliasOf;
      if q.qtype == 1 || q.qtype == 28 {
        AddressAnswersAre(mgr, q, z);
      } else if q.qtype == 15 {
        MxAre(mgr, q, z);
      } else if q.qtype == 6 {
        SoaIs(mgr, q, z);
      }
    }
  }

  lemma EverythingIs(mgr: ZoneMgr, q: Question, z: Zone)
    requires q.qtype == 255
    ensures Answered(mgr, q, z, mgr.MainAnswers(q, z) + mgr.TextAnswers(q, z))
  {
    AliasIs(z);
    hide FullCname, AliasOf;
    var first := if IsAlias(z.data) then [Planned(AtQuestion(q), Cname(AliasOf(z)))] else [];
    assert first + [] == first;
    assert mgr.MainAnswers(q, z) == first;
  }

  /**
   * A question is answered just when there is a zone for it, and an SOA record at or above that zone if that
   * is what it asks for. Its answers, its authority and the hosts it names are those of its type.
   */
  lemma QuestionIs(mgr: ZoneMgr, q: Question)
    ensures var plan, z := mgr.PlanQuestion(q), mgr.lookup(q.labels).zone;
            if z.None? then plan == Err(if mgr.lookup(q.labels).authority then UnknownSubDomain else UnknownDomain)
            else if q.qtype == 6 && NoSoa(z.value) then plan == Err(NoSoaRecord)
            else
              plan.Ok? && Answered(mgr, q, z.value, plan.value.answers) &&
              AuthorityIs(q, z.value, plan.value.authority) && ServersAre(q, z.value, plan.value.servers) &&
              (plan.value.authoritative <==>
                 exists n :: Nearest(z.value, n) && Ancestor(z.value, n).value.data.authorative)
  {
    var plan, z := mgr.PlanQuestion(q), mgr.lookup(q.labels).zone;
    if z.Some? {
      var n := SoaZoneIs(z.value);
      if z.value.SoaZone().Some? {
        assert HasSoa(z.value, n);
        forall m | Nearest(z.value, m) ensures m == n { NearestIsOne(z.value, m, n); }
      } else {
        NothingNearest(z.value);
      }
      if plan.Ok? {
        AnswersAre(mgr, q, z.value);
        if q.qtype == 15 { MxAre(mgr, q, z.value); }
      }
      hide Answered, ZoneMgr.MainAnswers, ZoneMgr.TextAnswers, Zone.SoaZone, Ancestor, Nearest, HasSoa,
           ZoneMgr.ServerNames;
    }
  }

  /** Under the name asked for, of the type asked for; or the alias; or an address that the alias owns. */
  predicate Fits(q: Question, z: Zone, p: Planned) {
    (p.owner == AtQuestion(q) && p.rdata.Type() == q.qtype) ||
    (IsAlias(z.data) && p == Planned(AtQuestion(q), Cname(AliasOf(z)))) ||
    (IsAlias(z.data) && p.owner == ByName(AliasOf(z)) && (p.rdata.A? || p.rdata.Aaaa?))
  }

  lemma AddressesFit(q: Question, z: Zone, ps: seq<Planned>, t: ZoneData, p: Planned)
    requires IsAlias(z.data) && AddressesOf(ps, t, ByName(AliasOf(z))) && p in ps
    ensures Fits(q, z, p)
  {
    hide AliasOf;
    var k :| 0 <= k < |ps| && ps[k] == p;
    var n := |ListOf(t.a)|;
    if k >= n { assert ps[n + (k - n)] == Planned(ByName(AliasOf(z)), Aaaa(ListOf(t.aaaa)[k - n])); }
  }

  lemma AddressFits(mgr: ZoneMgr, q: Question, z: Zone, an: seq<Planned>, p: Planned)
    requires Answered(mgr, q, z, an) && p in an && q.qtype == 1
    ensures Fits(q, z, p)
  {
    hide AliasOf, AddressesOf, Fragments;
    if IsAlias(z.data) && p != an[0] {
      var target := mgr.lookup(Fragments(AliasOf(z))).zone;
      var k :| 0 < k < |an| && an[k] == p;
      assert an[1..][k - 1] == p;
      AddressesFit(q, z, an[1..], target.value.data, p);
    }
  }

  lemma OthersFit(mgr: ZoneMgr, q: Question, z: Zone, an: seq<Planned>, p: Planned)
    requires Answered(mgr, q, z, an) && p in an && q.qtype != 1 && q.qtype != 255
    ensures Fits(q, z, p)
  {
    hide AliasOf, HostOf, AddressesOf, Fragments, Ancestor, Nearest, Zone.Labels, Zone.GetDomainName;
    var k :| 0 <= k < |an| && an[k] == p;
  }

  /**
   * Whatever is asked for but everything, each answer is of that type, or the alias of the zone, or an
   * address of what the alias stands for, under the name that the alias gives.
   */
  lemma AsAsked(mgr: ZoneMgr, q: Question, p: Planned)
    requires mgr.PlanQuestion(q).Ok? && p in mgr.PlanQuestion(q).value.answers && q.qtype != 255
    ensures mgr.lookup(q.labels).zone.Some? && Fits(q, mgr.lookup(q.labels).zone.value, p)
  {
    QuestionIs(mgr, q);
    var z, an := mgr.lookup(q.labels).zone.value, mgr.PlanQuestion(q).value.answers;
    hide *;
    if q.qtype == 1 { AddressFits(mgr, q, z, an, p); } else { OthersFit(mgr, q, z, an, p); }
  }
}
