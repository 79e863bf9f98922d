/** The name server in front of the two zone stores: which zones it can serve, and what becomes of a query. */
module ZoneServing {
  import opened Bytes
  import opened Compression
  import opened DomainNames
  import opened MessageHeaders
  import opened Messages
  import opened Zones
  import opened LabelHeaders
  import opened Answers
  import opened DnsPlans
  import opened DnsDaemons
  import opened AnswersByType
  import opened PlannedSections
  import opened ReplyOctets
  import opened ZoneTrees
  import opened ZoneMaps
  import opened ZoneSections
  import opened ZoneMgrMemories

  // ---- Zones whose records can be written ----

  predicate LegalOwnerName(name: bytes) {
    name != [] && LegalName(name)
  }

  /** A zone that can own address records. */
  predicate Addressable(z: Zone) {
    z.data.HaveAddress() ==> LegalOwnerName(z.GetDomainName())
  }

  predicate LegalServers(mgr: ZoneMgr, z: Zone, hosts: seq<bytes>) {
    forall k :: 0 <= k < |hosts| ==> LegalServer(mgr, z, hosts[k])
  }

  /** A server whose name can be written, and so can its addresses if it is one of our own zones. */
  predicate LegalServer(mgr: ZoneMgr, z: Zone, host: bytes) {
    var name := Fqdn(host, z.GetDomainName());
    LegalName(name) && (mgr.lookup(Fragments(name)).zone.Some? ==> Addressable(mgr.lookup(Fragments(name)).zone.value))
  }

  /** All names that records about this zone can hold have legal labels and stay within the reach of a pointer. */
  predicate Servable(mgr: ZoneMgr, z: Zone) {
    LegalServers(mgr, z, NsHosts(z.data)) && LegalServers(mgr, z, MxHosts(z.data)) &&
    (NsHosts(z.data) != [] ==> LegalOwnerName(z.GetDomainName())) &&
    (z.data.HaveCname() ==> LegalName(FullCname(z))) &&
    (z.data.soa.Some? ==> Answers.Soa(z.data.soa.value, z.Labels()).IsLegal()) &&
    (z.parent.Some? ==> Servable(mgr, z.parent.value))
  }

  ghost predicate ServableStore(mgr: ZoneMgr) {
    forall key :: mgr.lookup(key).zone.Some? ==> Servable(mgr, mgr.lookup(key).zone.value)
  }

  lemma {:induction false} SoaZoneIsServable(mgr: ZoneMgr, z: Zone)
    requires Servable(mgr, z) && z.SoaZone().Some?
    ensures Servable(mgr, z.SoaZone().value)
    decreases z
  {
    if z.data.soa.None? { SoaZoneIsServable(mgr, z.parent.value); }
  }

  predicate AllServable(mgr: ZoneMgr, zones: seq<Zone>) {
    forall k :: 0 <= k < |zones| ==> Servable(mgr, zones[k])
  }

  predicate AllAddressable(zones: seq<Zone>) {
    forall k :: 0 <= k < |zones| ==> Addressable(zones[k])
  }

  lemma AppendLegal(a: seq<Planned>, b: seq<Planned>)
    requires AllLegal(a) && AllLegal(b)
    ensures AllLegal(a + b)
  {
  }

  lemma AddressesAreLegal(owner: PlannedOwner, data: ZoneData)
    requires data.HaveAddress() && owner.ByName? ==> LegalOwnerName(owner.name)
    ensures AllLegal(PlanAddresses(owner, data))
  {
    hide LegalName;
    AppendLegal(PlanA(owner, data), PlanAaaa(owner, data));
  }

  lemma AnswersAreLegal(mgr: ZoneMgr, q: Question, z: Zone)
    requires Servable(mgr, z)
    ensures AllLegal(mgr.MainAnswers(q, z)) && AllLegal(mgr.TextAnswers(q, z))
  {
    hide LegalName, Servable;
    if q.qtype == TYPE_A || q.qtype == TYPE_AAAA || q.qtype == QTYPE_ALL {
      AddressAnswersAreLegal(mgr, q, z);
    } else if q.qtype == TYPE_CNAME {
      if z.data.HaveCname() { CnameIsLegal(mgr, q, z); }
    } else if q.qtype == TYPE_SOA {
      if z.SoaZone().Some? {
        SoaZoneIsServable(mgr, z);
        SoaIsLegal(mgr, q, z.SoaZone().value);
      }
    } else if q.qtype == TYPE_MX && z.data.mx.Some? {
      MxIsLegal(mgr, q, z);
    }
  }

  lemma CnameIsLegal(mgr: ZoneMgr, q: Question, z: Zone)
    requires Servable(mgr, z) && z.data.HaveCname()
    ensures AllLegal([Planned(AtQuestion(q), Cname(FullCname(z)))]) && LegalOwnerName(FullCname(z))
  {
    hide LegalName;
    var p := Planned(AtQuestion(q), Cname(FullCname(z)));
    assert p.rdata.Names() == [FullCname(z)];
    assert p.IsLegal();
  }

  lemma SoaIsLegal(mgr: ZoneMgr, q: Question, z: Zone)
    requires Servable(mgr, z) && z.data.soa.Some?
    ensures AllLegal([Planned(AtQuestion(q), Answers.Soa(z.data.soa.value, z.Labels()))])
  {
    hide LegalName, Rdata.IsLegal;
  }

  lemma MxIsLegal(mgr: ZoneMgr, q: Question, z: Zone)
    requires Servable(mgr, z) && z.data.mx.Some?
    ensures AllLegal(PlanMx(q, z, z.data.mx.value))
  {
    hide LegalName;
    var hosts := z.data.mx.value;
    forall k | 0 <= k < |hosts| ensures PlanMx(q, z, hosts)[k].IsLegal() {
      NthMx(mgr, q, z, k);
      assert LegalServer(mgr, z, MxHosts(z.data)[k]);
    }
  }

  lemma AddressAnswersAreLegal(mgr: ZoneMgr, q: Question, z: Zone)
    requires Servable(mgr, z)
    ensures AllLegal(mgr.AddressAnswers(q, z))
  {
    hide LegalName, Servable, PlanAddresses, FullCname;
    if z.data.HaveCname() {
      CnameIsLegal(mgr, q, z);
      var target := mgr.lookup(Fragments(FullCname(z))).zone;
      var first := [Planned(AtQuestion(q), Cname(FullCname(z)))];
      if q.qtype == TYPE_A && target.Some? {
        AddressesAreLegal(ByName(FullCname(z)), target.value.data);
        AppendLegal(first, PlanAddresses(ByName(FullCname(z)), target.value.data));
      } else {
        AppendLegal(first, []);
      }
    }
  }

  lemma NsIsLegal(mgr: ZoneMgr, z: Zone)
    requires Servable(mgr, z)
    ensures AllLegal(PlanNs(z, NsHosts(z.data)))
  {
    hide LegalName;
    var hosts := NsHosts(z.data);
    forall k | 0 <= k < |hosts| ensures PlanNs(z, hosts)[k].IsLegal() {
      NthNs(mgr, z, hosts, k);
      assert LegalServer(mgr, z, hosts[k]);
    }
  }

  lemma {:induction false} ServersAreAddressable(mgr: ZoneMgr, zones: seq<Zone>, z: Zone, hosts: seq<bytes>)
    requires AllAddressable(zones) && LegalServers(mgr, z, hosts)
    ensures AllAddressable(mgr.AddServers(zones, mgr.ServerNames(z, hosts)))
    decreases |hosts|
  {
    hide LegalName, Addressable;
    var names := mgr.ServerNames(z, hosts);
    if hosts != [] {
      assert LegalServer(mgr, z, hosts[0]);
      assert names[1..] == mgr.ServerNames(z, hosts[1..]);
      ServersAreAddressable(mgr, mgr.AddZone(zones, mgr.lookup(Fragments(names[0])).zone), z, hosts[1..]);
    }
  }

  lemma QuestionIsLegal(mgr: ZoneMgr, q: Question)
    requires ServableStore(mgr) && mgr.PlanQuestion(q).Ok?
    ensures var p := mgr.PlanQuestion(q).value;
            AllLegal(p.answers) && (p.authority.Some? ==> Servable(mgr, p.authority.value))
    ensures forall zones :: AllAddressable(zones) ==>
              AllAddressable(mgr.AddServers(zones, mgr.PlanQuestion(q).value.servers))
  {
    hide LegalName, AllLegal, ZoneMgr.MainAnswers, ZoneMgr.TextAnswers, AllAddressable, ZoneMgr.AddServers,
         ZoneMgr.ServerNames, LegalServers;
    var z := mgr.lookup(q.labels).zone.value;
    var p := mgr.PlanQuestion(q).value;
    AnswersAreLegal(mgr, q, z);
    AppendLegal(mgr.MainAnswers(q, z), mgr.TextAnswers(q, z));
    if p.authority.Some? { SoaZoneIsServable(mgr, z); }
    forall zones | AllAddressable(zones) ensures AllAddressable(mgr.AddServers(zones, p.servers)) {
      if q.qtype == TYPE_MX {
        ServersAreAddressable(mgr, zones, z, MxHosts(z.data));
      } else {
        NoServers(mgr, zones);
      }
    }
  }

  lemma NoServers(mgr: ZoneMgr, zones: seq<Zone>)
    ensures mgr.AddServers(zones, []) == zones
  {
  }

  lemma {:induction false} QuestionsAreLegal(mgr: ZoneMgr, qs: seq<Question>)
    requires ServableStore(mgr) && mgr.PlanQuestions(qs).Ok?
    ensures var g := mgr.PlanQuestions(qs).value;
            AllLegal(g.answers) && AllServable(mgr, g.authority) && AllAddressable(g.servers)
    decreases |qs|
  {
    hide LegalName, AllLegal, ZoneMgr.PlanQuestion, Servable, AllAddressable, ZoneMgr.AddServers, ServableStore;
    if qs == [] {
      NothingPlanned();
    } else {
      var front, q := qs[..|qs| - 1], qs[|qs| - 1];
      QuestionsAreLegal(mgr, front);
      QuestionIsLegal(mgr, q);
      AppendLegal(mgr.PlanQuestions(front).value.answers, mgr.PlanQuestion(q).value.answers);
    }
  }

  lemma NothingPlanned()
    ensures AllLegal([]) && AllAddressable([])
  {
  }

  lemma {:induction false} AuthorityIsLegal(mgr: ZoneMgr, zones: seq<Zone>)
    requires AllServable(mgr, zones)
    ensures AllLegal(mgr.PlanAuthority(zones))
    decreases |zones|
  {
    hide LegalName, AllLegal, Servable, PlanNs;
    if zones == [] {
      NothingPlanned();
    } else {
      var z := zones[|zones| - 1];
      AuthorityIsLegal(mgr, zones[..|zones| - 1]);
      NsIsLegal(mgr, z);
      AppendLegal(mgr.PlanAuthority(zones[..|zones| - 1]), PlanNs(z, NsHosts(z.data)));
    }
  }

  lemma {:induction false} NameServersAreAddressable(mgr: ZoneMgr, servers: seq<Zone>, zones: seq<Zone>)
    requires AllAddressable(servers) && AllServable(mgr, zones)
    ensures AllAddressable(mgr.WithNameServers(servers, zones))
    decreases |zones|
  {
    hide LegalName, AllAddressable, LegalServers, ZoneMgr.ServerNames, ZoneMgr.AddServers;
    if zones != [] {
      var z := zones[|zones| - 1];
      NameServersAreAddressable(mgr, servers, zones[..|zones| - 1]);
      assert Servable(mgr, z);
      ServersAreAddressable(mgr, mgr.WithNameServers(servers, zones[..|zones| - 1]), z, NsHosts(z.data));
    }
  }

  lemma {:induction false} AdditionalIsLegal(mgr: ZoneMgr, zones: seq<Zone>)
    requires AllAddressable(zones)
    ensures AllLegal(mgr.PlanAdditional(zones))
    decreases |zones|
  {
    hide LegalName, AllLegal, PlanAddresses;
    if zones == [] {
      NothingPlanned();
    } else {
      var z := zones[|zones| - 1];
      AdditionalIsLegal(mgr, zones[..|zones| - 1]);
      AddressesAreLegal(ByName(z.GetDomainName()), z.data);
      AppendLegal(mgr.PlanAdditional(zones[..|zones| - 1]), PlanAddresses(ByName(z.GetDomainName()), z.data));
    }
  }

  /** From a store of servable zones, every reply that can be asked for can be written. */
  lemma PlansAreLegal(mgr: ZoneMgr, qs: seq<Question>)
    requires ServableStore(mgr) && mgr.WholePlan(qs).Ok?
    ensures AllLegal(mgr.WholePlan(qs).value.All())
  {
    hide LegalName, AllLegal, Servable, AllServable, AllAddressable, ServableStore, ZoneMgr.PlanQuestions,
         ZoneMgr.PlanAuthority, ZoneMgr.PlanAdditional, ZoneMgr.WithNameServers;
    QuestionsAreLegal(mgr, qs);
    var g := mgr.PlanQuestions(qs).value;
    AuthorityIsLegal(mgr, g.authority);
    NameServersAreAddressable(mgr, g.servers, g.authority);
    AdditionalIsLegal(mgr, mgr.WithNameServers(g.servers, g.authority));
    AppendLegal(g.answers, mgr.PlanAuthority(g.authority));
    AppendLegal(g.answers + mgr.PlanAuthority(g.authority),
                mgr.PlanAdditional(mgr.WithNameServers(g.servers, g.authority)));
  }

  /** The domain name of a wildcard zone starts with a dot, so no record of its own can carry it. */
  lemma WildcardOwnsNothing(z: Zone)
    requires z.data.name == []
    ensures !LegalOwnerName(z.GetDomainName())
  {
    var dn := z.GetDomainName();
    if z.parent.Some? {
      var up := z.parent.value.Labels();
      assert z.Labels()[1..] == up;
      assert dn == [] + [DOT] + Join(up);
      assert dn[0] == DOT && FindDot(dn) == 0;
      assert Fragments(dn)[0] == dn[..0] == [];
    }
  }

  // ---- The two stores ----

  /** A json store at one moment; its handles are new objects every time. */
  function JsonStore(tree: seq<ZoneNode>): ZoneMgr {
    ZoneMgr(key => LookupIn(tree, key), false)
  }

  function MemoryStore(zones: seq<ZoneNode>): ZoneMgr {
    ZoneMgr(key => FoundIn(zones, key), true)
  }

  /** The n-th zone above a node is the node n steps up the cursor. */
  lemma {:induction false} AncestorAt(nodes: seq<ZoneNode>, c: ZoneTrees.Cursor, n: nat)
    requires ValidCursor(nodes, c)
    ensures n >= |c| ==> Ancestor(ZoneAt(nodes, c), n) == None
    ensures n < |c| ==>
              ValidCursor(nodes, c[..|c| - n]) && Ancestor(ZoneAt(nodes, c), n) == Some(ZoneAt(nodes, c[..|c| - n]))
    decreases n
  {
    if n == 0 {
      assert c[..|c|] == c;
    } else if |c| > 1 {
      CursorPrefix(nodes, c, |c| - 1);
      AncestorAt(nodes, c[..|c| - 1], n - 1);
      if n < |c| { assert c[..|c| - 1][..|c| - n] == c[..|c| - n]; }
    }
  }

  /** Zones of a memory store are told apart by where they are. */
  lemma MemoryIsIdentified(zones: seq<ZoneNode>)
    ensures Identified(MemoryStore(zones))
  {
    var mgr := MemoryStore(zones);
    hide GreedyPath, ValidCursor, ZoneAt, Ancestor;
    forall z | IsKnown(mgr, z) ensures ValidCursor(zones, z.id) && z == ZoneAt(zones, z.id) {
      var key, n: nat :| Finds(mgr, key, n, z);
      KnownAt(zones, key, n, z);
    }
  }

  lemma KnownAt(zones: seq<ZoneNode>, key: seq<bytes>, n: nat, z: Zone)
    requires Finds(MemoryStore(zones), key, n, z)
    ensures ValidCursor(zones, z.id) && z == ZoneAt(zones, z.id)
  {
    hide GreedyPath, ValidCursor, Ancestor;
    var c := GreedyPath(zones, Reverse(key));
    ValidGreedy(zones, Reverse(key));
    AncestorAt(zones, c, n);
  }

  lemma ValidGreedy(nodes: seq<ZoneNode>, p: Path)
    ensures var c := GreedyPath(nodes, p); c == [] || ValidCursor(nodes, c)
  {
  }

  lemma JsonIsIdentified(tree: seq<ZoneNode>)
    ensures Identified(JsonStore(tree))
  {
  }

  /** Every node of the tree can be served. */
  ghost predicate ServableTree(mgr: ZoneMgr, tree: seq<ZoneNode>) {
    forall c :: ValidCursor(tree, c) ==> Servable(mgr, ZoneAt(tree, c))
  }

  lemma ServableStores(tree: seq<ZoneNode>)
    ensures ServableTree(JsonStore(tree), tree) ==> ServableStore(JsonStore(tree))
    ensures ServableTree(MemoryStore(tree), tree) ==> ServableStore(MemoryStore(tree))
  {
    hide Servable;
  }

  /** With the json store a name that is not found is never denied: the query gets no reply. */
  lemma {:induction false} JsonNeverDenies(tree: seq<ZoneNode>, qs: seq<Question>)
    ensures JsonStore(tree).PlanQuestions(qs) != Err(UnknownSubDomain)
    decreases |qs|
  {
    if qs != [] {
      JsonNeverDenies(tree, qs[..|qs| - 1]);
      hide ZoneMgr.MainAnswers, ZoneMgr.TextAnswers;
    }
  }

  /**
   * With the json store a question gets a zone just when its name is in the tree or Search stalls on it, and
   * the zone is the one of that name just when it is in the tree: a stalled answer is from another zone.
   */
  lemma JsonQuestion(tree: seq<ZoneNode>, q: Question)
    requires Sound(tree) && q.labels != []
    ensures var p, found, plan := Reverse(q.labels), JsonStore(tree).lookup(q.labels).zone,
            JsonStore(tree).PlanQuestion(q);
            (found.Some? <==> p in Entries(tree) || Stalls(tree, p)) &&
            (found.Some? ==>
               (found.value.Labels() == q.labels <==> p in Entries(tree)) &&
               Target(tree, p).Some? && Target(tree, p).value in Entries(tree) &&
               found.value.data == Entries(tree)[Target(tree, p).value]) &&
            if found.None? then plan == Err(UnknownDomain)
            else if q.qtype == TYPE_SOA && found.value.SoaZone().None? then plan == Err(NoSoaRecord)
            else plan.Ok?
  {
    hide ZoneMgr.MainAnswers, ZoneMgr.TextAnswers, SearchFrom, Stalls, Sound, Locate;
    var p := Reverse(q.labels);
    assert Reverse(p) == q.labels;
    TargetIs(tree, p);
    if SearchFrom(tree, p).Some? {
      var c := SearchFrom(tree, p).value;
      LabelsOfZone(tree, c);
      ReverseTells(Target(tree, p).value, p);
      EntryOf(tree, Target(tree, p).value);
    }
  }

  /**
   * With the memory store a question is answered, denied, or passed over in silence just as the greedy
   * path of its name is complete, breaks off under a zone with authority, or breaks off elsewhere.
   */
  lemma MemoryVerdict(zones: seq<ZoneNode>, q: Question)
    requires q.labels != []
    ensures var c := GreedyPath(zones, Reverse(q.labels));
            var plan := MemoryStore(zones).PlanQuestion(q);
            if |c| == |q.labels| then
              if q.qtype == TYPE_SOA && ZoneAt(zones, c).SoaZone().None? then plan == Err(NoSoaRecord) else plan.Ok?
            else if c != [] && At(zones, c).zone.authorative then plan == Err(UnknownSubDomain)
            else plan == Err(UnknownDomain)
  {
    hide ZoneMgr.MainAnswers, ZoneMgr.TextAnswers, GreedyPath;
  }

  // ---- Replies by number ----

  /**
   * With the memory store: code 3 where the greedy path of the name breaks off under a zone with authority, no
   * reply where it breaks off elsewhere, code 2 where an SOA record is missing, and else answers.
   */
  ghost predicate MemoryNumbers(zones: seq<ZoneNode>, mem: bytes, queryLen: nat, reply: Option<bytes>)
    requires queryLen < |mem| && Sensible(mem, queryLen)
  {
    var q, n := QuestionIn(mem, queryLen), mem[4] as int * 256 + mem[5];
    var c := GreedyPath(zones, Reverse(q.labels));
    if |c| < |q.labels| then
      if c != [] && At(zones, c).zone.authorative then ErrorOctets(reply, mem, 3) else reply == None
    else if c == [] || (q.qtype == 6 && NoSoa(ZoneAt(zones, c))) then ErrorOctets(reply, mem, 2)
    else Delivered(MemoryStore(zones), mem, q, n, reply)
  }

  /**
   * With the json store: answers where the name is in the tree, or Search stalls on it and the zone it stalls
   * at answers instead; no reply for any other name.
   */
  ghost predicate JsonNumbers(tree: seq<ZoneNode>, mem: bytes, queryLen: nat, reply: Option<bytes>)
    requires queryLen < |mem| && Sensible(mem, queryLen)
  {
    var q, n := QuestionIn(mem, queryLen), mem[4] as int * 256 + mem[5];
    var p, c := Reverse(q.labels), SearchFrom(tree, Reverse(q.labels));
    (c.Some? <==> p in Entries(tree) || Stalls(tree, p)) &&
    if c.None? then reply == None
    else if q.qtype == 6 && NoSoa(ZoneAt(tree, c.value)) then ErrorOctets(reply, mem, 2)
    else Delivered(JsonStore(tree), mem, q, n, reply)
  }

  lemma MemoryLookup(zones: seq<ZoneNode>, key: seq<bytes>)
    requires key != []
    ensures var c, found := GreedyPath(zones, Reverse(key)), MemoryStore(zones).lookup(key);
            |c| <= |key| && found.zone == (if |c| == |key| then Some(ZoneAt(zones, c)) else None) &&
            (found.authority <==> c != [] && At(zones, c).zone.authorative)
  {
    hide GreedyPath;
  }

  lemma MemoryByNumber(zones: seq<ZoneNode>, mem: bytes, queryLen: nat, reply: Option<bytes>)
    requires queryLen < |mem| && Sensible(mem, queryLen) && Replies(MemoryStore(zones), mem, queryLen, reply)
    ensures MemoryNumbers(zones, mem, queryLen, reply)
  {
    hide Replies, Sensible, QuestionIn, ErrorOctets, Delivered, NoSoa, ZoneAt, At, MemoryStore;
    SensibleByNumber(MemoryStore(zones), mem, queryLen, reply);
    MemoryLookup(zones, QuestionIn(mem, queryLen).labels);
  }

  lemma JsonLookup(tree: seq<ZoneNode>, key: seq<bytes>)
    requires Sound(tree)
    ensures var p, c, found := Reverse(key), SearchFrom(tree, Reverse(key)), JsonStore(tree).lookup(key);
            (c.Some? <==> p in Entries(tree) || Stalls(tree, p)) && (c.Some? ==> ValidCursor(tree, c.value)) &&
            if c.Some? then found.zone == Some(ZoneAt(tree, c.value)) else found.zone == None && !found.authority
  {
    TargetIs(tree, Reverse(key));
    hide Sound, SearchFrom, Stalls, Entries;
  }

  lemma JsonByNumber(tree: seq<ZoneNode>, mem: bytes, queryLen: nat, reply: Option<bytes>)
    requires queryLen < |mem| && Sensible(mem, queryLen) && Replies(JsonStore(tree), mem, queryLen, reply)
    requires Sound(tree)
    ensures JsonNumbers(tree, mem, queryLen, reply)
  {
    hide Replies, Sensible, QuestionIn, ErrorOctets, Delivered, NoSoa, Stalls, Sound, ZoneAt, At, JsonStore, Entries;
    SensibleByNumber(JsonStore(tree), mem, queryLen, reply);
    JsonLookup(tree, QuestionIn(mem, queryLen).labels);
  }

  /** One datagram answered from a json store whose zones can be served. */
  method AnswerFromJson(tree: seq<ZoneNode>, mem: bytes, queryLen: nat) returns (reply: Option<bytes>)
    requires queryLen < |mem| && ServableTree(JsonStore(tree), tree)
    ensures Replies(JsonStore(tree), mem, queryLen, reply) && Judge(JsonStore(tree), mem, queryLen) != Fails(NAME_ERROR)
    ensures Numbers(JsonStore(tree), mem, queryLen, reply)
    ensures Sound(tree) && Sensible(mem, queryLen) ==> JsonNumbers(tree, mem, queryLen, reply)
  {
    ServableStores(tree);
    var mgr := JsonStore(tree);
    var daemon := new DnsDaemon(mgr);
    LegalVerdict(mgr, mem, queryLen);
    JsonVerdict(tree, mem, queryLen);
    hide *;
    reply := daemon.ProcesssQuerey(mem, queryLen);
    RepliesByNumber(mgr, mem, queryLen, reply);
    if Sound(tree) && Sensible(mem, queryLen) { JsonByNumber(tree, mem, queryLen, reply); }
  }

  /** The same for a memory store. */
  method AnswerFromMemory(zones: seq<ZoneNode>, mem: bytes, queryLen: nat) returns (reply: Option<bytes>)
    requires queryLen < |mem| && ServableTree(MemoryStore(zones), zones)
    ensures Replies(MemoryStore(zones), mem, queryLen, reply)
    ensures Numbers(MemoryStore(zones), mem, queryLen, reply)
    ensures Sensible(mem, queryLen) ==> MemoryNumbers(zones, mem, queryLen, reply)
  {
    ServableStores(zones);
    var mgr := MemoryStore(zones);
    var daemon := new DnsDaemon(mgr);
    LegalVerdict(mgr, mem, queryLen);
    hide *;
    reply := daemon.ProcesssQuerey(mem, queryLen);
    RepliesByNumber(mgr, mem, queryLen, reply);
    if Sensible(mem, queryLen) { MemoryByNumber(zones, mem, queryLen, reply); }
  }

  lemma LegalVerdict(mgr: ZoneMgr, mem: bytes, queryLen: nat)
    requires queryLen < |mem| && ServableStore(mgr)
    ensures var v := Judge(mgr, mem, queryLen); v.Answers? ==> AllLegal(v.plan.All())
  {
    var v := Judge(mgr, mem, queryLen);
    if v.Answers? {
      hide QuestionsOf, ZoneMgr.WholePlan, AllLegal, ServableStore, ReadHeader;
      PlansAreLegal(mgr, v.questions);
    }
  }

  lemma JsonVerdict(tree: seq<ZoneNode>, mem: bytes, queryLen: nat)
    requires queryLen < |mem|
    ensures Judge(JsonStore(tree), mem, queryLen) != Fails(NAME_ERROR)
  {
    hide QuestionsOf, ReadHeader, ZoneMgr.PlanQuestions, ZoneMgr.PlanAuthority, ZoneMgr.PlanAdditional,
         ZoneMgr.WithNameServers;
    if HEADER_SIZE <= queryLen {
      var qs := QuestionsOf(mem, queryLen, ReadHeader(mem).qdcount);
      if qs.Ok? { JsonNeverDenies(tree, qs.value); }
      if qs.Err? { ParserNeverDenies(mem, queryLen, ReadHeader(mem).qdcount); }
    }
  }

  lemma ParserNeverDenies(mem: bytes, queryLen: nat, count: nat)
    requires HEADER_SIZE <= queryLen < |mem| && QuestionsOf(mem, queryLen, count).Err?
    ensures QuestionsOf(mem, queryLen, count).error.Code() != Some(NAME_ERROR)
  {
    hide QuestionAt;
  }
}
