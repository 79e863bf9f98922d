/** The plan of a reply: which records answer which question, before anything is written. */
module DnsPlans {
  import opened Bytes
  import opened Compression
  import opened DomainNames
  import opened MessageHeaders
  import opened Messages
  import opened Zones
  import opened LabelHeaders
  import opened Answers

  const QTYPE_ALL: uint16 := 255

  datatype Problem =
    | InvalidQuery
    | RefusedQuery
    | UnknownDomain
    | UnknownSubDomain
    | NoSoaRecord
    | BadName(why: Refusal)
  {
    /** The reply code of the handler that catches the exception; no reply for a domain that is not ours. */
    function Code(): Option<Rcode> {
      match this
      case InvalidQuery => Some(FORMAT_ERROR)
      case RefusedQuery => Some(REFUSED)
      case UnknownDomain => None
      case UnknownSubDomain => Some(NAME_ERROR)
      case NoSoaRecord => Some(SERVER_FAILURE)
      case BadName(why) => if why.NoLabels? || why.IllegalLabel? then Some(FORMAT_ERROR) else Some(SERVER_FAILURE)
    }
  }

  // ----- the plan: which records answer which question -----

  datatype PlannedOwner = AtQuestion(question: Question) | ByName(name: bytes)

  /** A record to be stored, before it is known whether it fits. */
  datatype Planned = Planned(owner: PlannedOwner, rdata: Rdata)
  {
    predicate IsLegal() {
      rdata.IsLegal() && (owner.ByName? ==> owner.name != [] && LegalName(owner.name))
    }

    function OwnerLabels(): seq<bytes> {
      match owner
      case AtQuestion(q) => q.labels
      case ByName(name) => Fragments(name)
    }

    function Says(): Record {
      Record(OwnerLabels(), rdata.Type(), rdata.Says())
    }
  }

  function AllSay(ps: seq<Planned>): (r: seq<Record>)
    ensures |r| == |ps| && forall k :: 0 <= k < |ps| ==> r[k] == ps[k].Says()
  {
    seq(|ps|, k requires 0 <= k < |ps| => ps[k].Says())
  }

  predicate AllLegal(ps: seq<Planned>) {
    forall k :: 0 <= k < |ps| ==> ps[k].IsLegal()
  }

  function PlanA(owner: PlannedOwner, data: ZoneData): (r: seq<Planned>) {
    if data.a.None? then []
    else seq(|data.a.value|, k requires 0 <= k < |data.a.value| => Planned(owner, A(data.a.value[k])))
  }

  function PlanAaaa(owner: PlannedOwner, data: ZoneData): (r: seq<Planned>) {
    if data.aaaa.None? then []
    else seq(|data.aaaa.value|, k requires 0 <= k < |data.aaaa.value| => Planned(owner, Aaaa(data.aaaa.value[k])))
  }

  function PlanAddresses(owner: PlannedOwner, data: ZoneData): seq<Planned> {
    PlanA(owner, data) + PlanAaaa(owner, data)
  }

  /** The full name a CNAME points at: relative names continue with the domain of the parent zone. */
  function FullCname(zone: Zone): bytes
    requires zone.data.HaveCname()
  {
    var cname := zone.data.Cname();
    if cname[|cname| - 1] != DOT && zone.parent.Some? then cname + [DOT] + zone.parent.value.GetDomainName() else cname
  }

  function PlanMx(q: Question, zone: Zone, hosts: seq<Zones.Mx>): (r: seq<Planned>)
    ensures |r| == |hosts|
  {
    seq(|hosts|, k requires 0 <= k < |hosts| =>
      Planned(AtQuestion(q), Answers.Mx(hosts[k].priority % 0x1_0000, Fqdn(hosts[k].fqdn, zone.GetDomainName()))))
  }

  function PlanNs(zone: Zone, hosts: seq<bytes>): (r: seq<Planned>)
    ensures |r| == |hosts|
  {
    seq(|hosts|, k requires 0 <= k < |hosts| =>
      Planned(ByName(zone.GetDomainName()), Ns(Fqdn(hosts[k], zone.GetDomainName()))))
  }

  function MxHosts(data: ZoneData): seq<bytes> {
    if data.mx.None? then [] else seq(|data.mx.value|, k requires 0 <= k < |data.mx.value| => data.mx.value[k].fqdn)
  }

  function NsHosts(data: ZoneData): seq<bytes> {
    if data.ns.None? then [] else data.ns.value
  }

  /** Everything one question asks for. */
  datatype QuestionPlan = QuestionPlan(answers: seq<Planned>, authoritative: bool, authority: Option<Zone>,
                                       servers: seq<bytes>)

  /** What processing the questions leaves behind. */
  datatype Gathered = Gathered(answers: seq<Planned>, authoritative: bool, authority: seq<Zone>, servers: seq<Zone>)

  datatype Plan = Plan(answers: seq<Planned>, authority: seq<Planned>, additional: seq<Planned>, authoritative: bool)
  {
    function All(): seq<Planned> {
      answers + authority + additional
    }
  }

  /** A store of zones, seen through Lookup; `shared` if looking up twice gives the same object twice. */
  datatype ZoneMgr = ZoneMgr(lookup: seq<bytes> -> Found, shared: bool)
  {
    function AddZone(zones: seq<Zone>, zone: Option<Zone>): seq<Zone> {
      if zone.None? then zones
      else if shared && exists k :: 0 <= k < |zones| && zones[k].id == zone.value.id then zones
      else zones + [zone.value]
    }

    /** AddZone for the zone of each server name in turn. */
    function AddServers(zones: seq<Zone>, names: seq<bytes>): seq<Zone>
      decreases |names|
    {
      if names == [] then zones
      else AddServers(AddZone(zones, lookup(Fragments(names[0])).zone), names[1..])
    }

    /** Queries for addresses: a CNAME answers them all, and is resolved for type A only. */
    function AddressAnswers(q: Question, zone: Zone): seq<Planned> {
      if zone.data.HaveCname() then
        [Planned(AtQuestion(q), Cname(FullCname(zone)))] +
        (var target := lookup(Fragments(FullCname(zone))).zone;
         if q.qtype == TYPE_A && target.Some? then PlanAddresses(ByName(FullCname(zone)), target.value.data) else [])
      else if q.qtype == TYPE_A then PlanA(AtQuestion(q), zone.data)
      else if q.qtype == TYPE_AAAA then PlanAaaa(AtQuestion(q), zone.data)
      else []
    }

    function MainAnswers(q: Question, zone: Zone): seq<Planned> {
      if q.qtype == TYPE_A || q.qtype == TYPE_AAAA || q.qtype == QTYPE_ALL then AddressAnswers(q, zone)
      else if q.qtype == TYPE_CNAME then
        if zone.data.HaveCname() then [Planned(AtQuestion(q), Cname(FullCname(zone)))] else []
      else if q.qtype == TYPE_SOA then
        match zone.SoaZone()
        case Some(z) => [Planned(AtQuestion(q), Answers.Soa(z.data.soa.value, z.Labels()))]
        case None => []
      else if q.qtype == TYPE_MX && zone.data.mx.Some? then PlanMx(q, zone, zone.data.mx.value)
      else []
    }

    function TextAnswers(q: Question, zone: Zone): seq<Planned> {
      if (q.qtype == TYPE_TXT || q.qtype == QTYPE_ALL) && zone.data.HaveTxt() then
        [Planned(AtQuestion(q), Txt(zone.data.Text()))]
      else []
    }

    function ServerNames(zone: Zone, hosts: seq<bytes>): (r: seq<bytes>)
      ensures |r| == |hosts|
    {
      seq(|hosts|, k requires 0 <= k < |hosts| => Fqdn(hosts[k], zone.GetDomainName()))
    }

    function PlanQuestion(q: Question): Result<QuestionPlan, Problem> {
      var found := lookup(q.labels);
      if found.zone.None? then Err(if found.authority then UnknownSubDomain else UnknownDomain)
      else
        var zone := found.zone.value;
        var soaZone := zone.SoaZone();
        if q.qtype == TYPE_SOA && soaZone.None? then Err(NoSoaRecord)
        else
          Ok(QuestionPlan(
               MainAnswers(q, zone) + TextAnswers(q, zone),
               soaZone.Some? && soaZone.value.data.authorative,
               if q.qtype == TYPE_SOA || q.qtype == TYPE_NS || q.qtype == QTYPE_ALL then soaZone else None,
               if q.qtype == TYPE_MX then ServerNames(zone, MxHosts(zone.data)) else []))
    }

    /** The lists after a question has been processed. */
    function Add(acc: Gathered, p: QuestionPlan): Gathered {
      Gathered(acc.answers + p.answers, acc.authoritative && p.authoritative,
               AddZone(acc.authority, p.authority), AddServers(acc.servers, p.servers))
    }

    function PlanQuestions(qs: seq<Question>): Result<Gathered, Problem>
      decreases |qs|
    {
      if qs == [] then Ok(Gathered([], true, [], []))
      else
        match PlanQuestions(qs[..|qs| - 1])
        case Err(e) => Err(e)
        case Ok(acc) =>
          match PlanQuestion(qs[|qs| - 1])
          case Err(e) => Err(e)
          case Ok(p) => Ok(Add(acc, p))
    }

    /** The name servers of the gathered zones, and the zones those servers are in. */
    function PlanAuthority(zones: seq<Zone>): seq<Planned>
      decreases |zones|
    {
      if zones == [] then []
      else PlanAuthority(zones[..|zones| - 1]) + PlanNs(zones[|zones| - 1], NsHosts(zones[|zones| - 1].data))
    }

    function WithNameServers(servers: seq<Zone>, zones: seq<Zone>): seq<Zone>
      decreases |zones|
    {
      if zones == [] then servers
      else
        var z := zones[|zones| - 1];
        AddServers(WithNameServers(servers, zones[..|zones| - 1]), ServerNames(z, NsHosts(z.data)))
    }

    function PlanAdditional(zones: seq<Zone>): seq<Planned>
      decreases |zones|
    {
      if zones == [] then []
      else
        var z := zones[|zones| - 1];
        PlanAdditional(zones[..|zones| - 1]) + PlanAddresses(ByName(z.GetDomainName()), z.data)
    }

    /** The three sections of the reply to these questions, were there room for all of it. */
    function WholePlan(qs: seq<Question>): Result<Plan, Problem> {
      match PlanQuestions(qs)
      case Err(e) => Err(e)
      case Ok(g) =>
        Ok(Plan(g.answers, PlanAuthority(g.authority), PlanAdditional(WithNameServers(g.servers, g.authority)),
                g.authoritative))
    }
  }

  lemma NthNs(mgr: ZoneMgr, zone: Zone, hosts: seq<bytes>, k: nat)
    requires k < |hosts|
    ensures PlanNs(zone, hosts)[k] == Planned(ByName(zone.GetDomainName()), Ns(Fqdn(hosts[k], zone.GetDomainName())))
    ensures mgr.ServerNames(zone, hosts)[k] == Fqdn(hosts[k], zone.GetDomainName())
  {
  }

  lemma NthMx(mgr: ZoneMgr, q: Question, zone: Zone, k: nat)
    requires zone.data.mx.Some? && k < |zone.data.mx.value|
    ensures var mx := zone.data.mx.value[k];
            var fqdn := Fqdn(mx.fqdn, zone.GetDomainName());
            |MxHosts(zone.data)| == |zone.data.mx.value| &&
            PlanMx(q, zone, zone.data.mx.value)[k] ==
            Planned(AtQuestion(q), Answers.Mx(mx.priority % 0x1_0000, fqdn)) &&
            mgr.ServerNames(zone, MxHosts(zone.data))[k] == fqdn
  {
  }

  lemma AddServersSnoc(mgr: ZoneMgr, zones: seq<Zone>, names: seq<bytes>, n: bytes)
    ensures mgr.AddServers(zones, names + [n]) ==
            mgr.AddZone(mgr.AddServers(zones, names), mgr.lookup(Fragments(n)).zone)
    decreases |names|
  {
    if names == [] {
      assert ([] + [n])[1..] == [];
    } else {
      assert (names + [n])[0] == names[0] && (names + [n])[1..] == names[1..] + [n];
      AddServersSnoc(mgr, mgr.AddZone(zones, mgr.lookup(Fragments(names[0])).zone), names[1..], n);
    }
  }

  lemma {:induction false} AuthorityPrefix(mgr: ZoneMgr, zones: seq<Zone>, i: nat)
    requires i <= |zones|
    ensures mgr.PlanAuthority(zones[..i]) <= mgr.PlanAuthority(zones)
    decreases |zones| - i
  {
    hide PlanNs, NsHosts;
    if i == |zones| {
      assert zones[..i] == zones;
    } else {
      AuthorityPrefix(mgr, zones, i + 1);
      assert zones[..i + 1][..i] == zones[..i];
    }
  }

  lemma {:induction false} AdditionalPrefix(mgr: ZoneMgr, zones: seq<Zone>, i: nat)
    requires i <= |zones|
    ensures mgr.PlanAdditional(zones[..i]) <= mgr.PlanAdditional(zones)
    decreases |zones| - i
  {
    hide PlanAddresses;
    if i == |zones| {
      assert zones[..i] == zones;
    } else {
      AdditionalPrefix(mgr, zones, i + 1);
      assert zones[..i + 1][..i] == zones[..i];
    }
  }

  // ----- planning for several questions that ask the same -----

  predicate Alike(qs: seq<Question>) {
    forall k :: 0 <= k < |qs| ==> qs[k] == qs[0].(offset := qs[k].offset)
  }

  lemma PlanNext(mgr: ZoneMgr, qs: seq<Question>, i: nat)
    requires i < |qs| && mgr.PlanQuestions(qs[..i]).Ok?
    ensures var p := mgr.PlanQuestion(qs[i]);
            mgr.PlanQuestions(qs[..i + 1]) ==
              if p.Err? then Err(p.error) else Ok(mgr.Add(mgr.PlanQuestions(qs[..i]).value, p.value))
  {
    assert qs[..i + 1][..i] == qs[..i];
  }

  lemma {:induction false} PlanFails(mgr: ZoneMgr, qs: seq<Question>, i: nat)
    requires i <= |qs| && mgr.PlanQuestions(qs[..i]).Err?
    ensures mgr.PlanQuestions(qs) == mgr.PlanQuestions(qs[..i])
    decreases |qs| - i
  {
    if i == |qs| {
      assert qs[..i] == qs;
    } else {
      assert qs[..i + 1][..i] == qs[..i];
      PlanFails(mgr, qs, i + 1);
    }
  }

  /** What the first questions ask for is the front of what all of them ask for. */
  lemma {:induction false} PlanPrefix(mgr: ZoneMgr, qs: seq<Question>, i: nat)
    requires i <= |qs| && mgr.PlanQuestions(qs).Ok?
    ensures mgr.PlanQuestions(qs[..i]).Ok?
    ensures mgr.PlanQuestions(qs[..i]).value.answers <= mgr.PlanQuestions(qs).value.answers
    decreases |qs| - i
  {
    hide ZoneMgr.PlanQuestion;
    if i == |qs| {
      assert qs[..i] == qs;
    } else {
      PlanPrefix(mgr, qs, i + 1);
      assert qs[..i + 1][..i] == qs[..i];
    }
  }

  /** Questions that differ in their offset only are answered or refused alike. */
  lemma AlikePlan(mgr: ZoneMgr, q: Question, q': Question)
    requires q' == q.(offset := q'.offset)
    ensures mgr.PlanQuestion(q).Ok? <==> mgr.PlanQuestion(q').Ok?
    ensures mgr.PlanQuestion(q).Ok? ==>
              mgr.PlanQuestion(q).value.authoritative == mgr.PlanQuestion(q').value.authoritative
  {
  }

  lemma {:induction false} AlikeOk(mgr: ZoneMgr, qs: seq<Question>, i: nat)
    requires Alike(qs) && i < |qs| && mgr.PlanQuestion(qs[i]).Ok?
    ensures mgr.PlanQuestions(qs).Ok?
    ensures mgr.PlanQuestions(qs).value.authoritative == mgr.PlanQuestion(qs[i]).value.authoritative
    ensures mgr.PlanQuestions(qs[..i + 1]).Ok?
    ensures mgr.PlanQuestions(qs[..i + 1]).value.authoritative == mgr.PlanQuestion(qs[i]).value.authoritative
  {
    AlikeUpTo(mgr, qs, i, |qs|);
    AlikeUpTo(mgr, qs, i, i + 1);
    assert qs[..|qs|] == qs;
  }

  lemma {:induction false} AlikeUpTo(mgr: ZoneMgr, qs: seq<Question>, i: nat, n: nat)
    requires Alike(qs) && i < |qs| && mgr.PlanQuestion(qs[i]).Ok? && n <= |qs|
    ensures mgr.PlanQuestions(qs[..n]).Ok?
    ensures n > 0 ==> mgr.PlanQuestions(qs[..n]).value.authoritative == mgr.PlanQuestion(qs[i]).value.authoritative
  {
    if n > 0 {
      AlikeUpTo(mgr, qs, i, n - 1);
      assert qs[..n][..n - 1] == qs[..n - 1];
      assert qs[i] == qs[n - 1].(offset := qs[i].offset);
      AlikePlan(mgr, qs[n - 1], qs[i]);
      hide ZoneMgr.PlanQuestion;
    }
  }

  lemma LegalMiddle(a: seq<Planned>, b: seq<Planned>, whole: seq<Planned>)
    requires AllLegal(whole) && a + b <= whole
    ensures AllLegal(b)
  {
    assert forall k :: 0 <= k < |b| ==> b[k] == whole[|a| + k];
  }

  lemma LegalParts(p1: seq<Planned>, p2: seq<Planned>)
    requires AllLegal(p1 + p2)
    ensures AllLegal(p1) && AllLegal(p2)
  {
    assert forall k :: 0 <= k < |p1| ==> p1[k] == (p1 + p2)[k];
    assert forall k :: 0 <= k < |p2| ==> p2[k] == (p1 + p2)[|p1| + k];
  }

  lemma LegalSuffix(p: seq<Planned>, k: nat)
    requires AllLegal(p) && k <= |p|
    ensures AllLegal(p[k..])
  {
  }

  // ----- what can be said at all -----

  /** The owner and all names in the data have labels of 1 to 63 octets. */
  predicate Sayable(p: Planned) {
    Legal(p.OwnerLabels()) && forall k :: 0 <= k < |p.rdata.Names()| ==> Legal(Fragments(p.rdata.Names()[k]))
  }

  /**
   * A planned record that is legal gets written as planned. Of one that is not sayable no octets at all read
   * as planned, whoever writes them.
   */
  lemma {:induction false} OnlySayableIsRead(b: bytes, pos: nat, plan: seq<Planned>, end: nat)
    requires RecordsAt(b, pos, AllSay(plan), end)
    ensures forall k :: 0 <= k < |plan| ==> Sayable(plan[k])
    decreases |plan|
  {
    hide ReadFrame, Holds, Sayable;
    if plan != [] {
      var f := ReadFrame(b, pos).value;
      assert AllSay(plan)[0] == plan[0].Says() && AllSay(plan)[1..] == AllSay(plan[1..]);
      OneIsSayable(b, pos, plan[0], f.next);
      OnlySayableIsRead(b, f.next, plan[1..], end);
      assert forall k :: 1 <= k < |plan| ==> plan[k] == plan[1..][k - 1];
    }
  }

  lemma OneIsSayable(b: bytes, pos: nat, p: Planned, end: nat)
    requires RecordAt(b, pos, p.Says(), end)
    ensures Sayable(p)
  {
    hide RecordAt, Legal;
    ReadRecordIsLegal(b, pos, p.Says(), end);
    assert forall k :: 0 <= k < |p.rdata.Names()| ==> p.Says().content.names[k] == Fragments(p.rdata.Names()[k]);
  }

  // ----- queries for all types -----

  lemma NoAddresses(owner: PlannedOwner, data: ZoneData)
    ensures PlanAddresses(owner, data) == [] <==> !data.HaveAddress()
    ensures forall p :: p in PlanAddresses(owner, data) ==> p.rdata.A? || p.rdata.Aaaa?
  {
    assert |PlanA(owner, data)| == if data.a.Some? then |data.a.value| else 0;
    assert |PlanAaaa(owner, data)| == if data.aaaa.Some? then |data.aaaa.value| else 0;
  }

  /**
   * A query for all types gets an alias and a text, and nothing else. So an address of the zone is withheld,
   * unless it has none.
   */
  lemma AllTypes(mgr: ZoneMgr, q: Question)
    requires q.qtype == QTYPE_ALL && mgr.PlanQuestion(q).Ok?
    ensures mgr.lookup(q.labels).zone.Some?
    ensures var data, answers := mgr.lookup(q.labels).zone.value.data, mgr.PlanQuestion(q).value.answers;
            (forall p :: p in answers ==> p.rdata.Cname? || p.rdata.Txt?) &&
            ((forall p :: p in PlanAddresses(AtQuestion(q), data) ==> p in answers) <==> !data.HaveAddress())
  {
    var data, answers := mgr.lookup(q.labels).zone.value.data, mgr.PlanQuestion(q).value.answers;
    NoAddresses(AtQuestion(q), data);
    hide PlanAddresses, FullCname, ZoneData.HaveAddress;
    assert forall p :: p in answers ==> p.rdata.Cname? || p.rdata.Txt?;
    if data.HaveAddress() {
      var p := PlanAddresses(AtQuestion(q), data)[0];
      assert p in PlanAddresses(AtQuestion(q), data);
    }
  }
}
