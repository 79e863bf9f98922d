/** The name server: from the octets of a query to the octets of the reply. */
module DnsDaemons {
  import opened Bytes
  import opened Compression
  import opened DomainNames
  import opened MessageHeaders
  import opened Messages
  import opened Zones
  import opened LabelHeaders
  import opened Answers
  import opened DnsPlans
  import opened Responses

  datatype Status = Fine | Truncated | Threw(problem: Problem)

  /**
   * The questions of a query, as the loop over them finds them: it never moves on in the query, so
   * each question is the first one again, copied to the next place in the reply.
   */
  function QuestionsOf(mem: bytes, queryLen: nat, count: nat): Result<seq<Question>, Problem>
    requires HEADER_SIZE <= queryLen < |mem|
  {
    if count == 0 then Ok([])
    else if queryLen == HEADER_SIZE then Err(InvalidQuery)
    else
      match QuestionAt(mem, HEADER_SIZE, queryLen - HEADER_SIZE, [], HEADER_SIZE)
      case Err(why) => Err(BadName(why))
      case Ok(p) =>
        if p.question.qclass != CLASS_IN then Err(RefusedQuery)
        else if HEADER_SIZE + count * p.question.GetSize() >= MAX_REPLY then Err(InvalidQuery)
        else Ok(Copies(p.question, count))
  }

  function Copies(q: Question, count: nat): (r: seq<Question>)
    ensures |r| == count
  {
    seq(count, k requires 0 <= k < count => q.(offset := HEADER_SIZE + k * q.GetSize()))
  }

  /** The state of the first pass after i rounds: i copies of the first question. */
  predicate Repeating(mem: bytes, queryLen: nat, questions: seq<Question>, i: nat, used: nat, known: seq<Span>)
    requires HEADER_SIZE <= queryLen < |mem|
  {
    var first := QuestionAt(mem, HEADER_SIZE, queryLen - HEADER_SIZE, [], HEADER_SIZE);
    Inside(known, queryLen) &&
    if i == 0 then known == [] && questions == [] && used == HEADER_SIZE
    else
      first.Ok? && first.value.question.qclass == CLASS_IN && questions == Copies(first.value.question, i) &&
      used == HEADER_SIZE + i * first.value.question.GetSize() < MAX_REPLY
  }

  lemma Times(i: nat, n: nat, size: nat)
    requires i <= n
    ensures i * size <= n * size && (i + 1) * size == i * size + size
  {
  }

  lemma CopiesNext(q: Question, i: nat)
    ensures Copies(q, i + 1) == Copies(q, i) + [q.(offset := HEADER_SIZE + i * q.GetSize())]
  {
  }

  /** What another round finds, and what it means for the whole pass. */
  lemma NextRound(mem: bytes, queryLen: nat, count: nat, questions: seq<Question>, i: nat, used: nat, known: seq<Span>)
    requires HEADER_SIZE < queryLen < |mem| && i < count && Repeating(mem, queryLen, questions, i, used, known)
    ensures var q := QuestionAt(mem, HEADER_SIZE, queryLen - HEADER_SIZE, known, used);
            var whole := QuestionsOf(mem, queryLen, count);
            if q.Err? then whole == Err(BadName(q.error))
            else if q.value.question.qclass != CLASS_IN then whole == Err(RefusedQuery)
            else if used + q.value.question.GetSize() >= MAX_REPLY then whole == Err(InvalidQuery)
            else Repeating(mem, queryLen, questions + [q.value.question], i + 1, used + q.value.question.GetSize(),
                           q.value.known)
    ensures var q := QuestionAt(mem, HEADER_SIZE, queryLen - HEADER_SIZE, known, used);
            q.Ok? ==> Copied(mem, queryLen, q.value.question, used)
  {
    hide QuestionAt, Copies, QuestionOctets, AllNames, OctetsAt;
    var size := queryLen - HEADER_SIZE;
    var first := QuestionAt(mem, HEADER_SIZE, size, [], HEADER_SIZE);
    AnotherRound(mem, queryLen, questions, i, used, known);
    if first.Ok? {
      FirstQuestion(mem, HEADER_SIZE, size, HEADER_SIZE);
      FirstIsCopied(mem, queryLen, first.value.question, used);
      Times(i, count, first.value.question.GetSize());
      Times(i + 1, count, first.value.question.GetSize());
      CopiesNext(first.value.question, i);
      NoCopies(first.value.question);
    }
  }

  /** Whatever has been parsed before, the next round parses the first question again. */
  lemma AnotherRound(mem: bytes, queryLen: nat, questions: seq<Question>, i: nat, used: nat, known: seq<Span>)
    requires HEADER_SIZE < queryLen < |mem| && Repeating(mem, queryLen, questions, i, used, known)
    ensures var size := queryLen - HEADER_SIZE;
            var first := QuestionAt(mem, HEADER_SIZE, size, [], HEADER_SIZE);
            var q := QuestionAt(mem, HEADER_SIZE, size, known, used);
            if first.Err? then q == first
            else q.Ok? && q.value.question == first.value.question.(offset := used) && Inside(q.value.known, queryLen)
  {
    hide Copies, QuestionAt;
    if i > 0 {
      QuestionAgain(mem, HEADER_SIZE, queryLen - HEADER_SIZE, known, HEADER_SIZE, used);
    } else {
      FirstKnown(mem, queryLen);
    }
  }

  lemma FirstIsCopied(mem: bytes, queryLen: nat, q: Question, used: nat)
    requires HEADER_SIZE < queryLen < |mem| && Legal(q.labels) && HEADER_SIZE + q.GetSize() <= queryLen
    requires OctetsAt(mem, HEADER_SIZE, QuestionOctets(q.Asks())) && q.GetSize() == |QuestionOctets(q.Asks())|
    ensures Copied(mem, queryLen, q.(offset := used), used)
  {
    hide QuestionOctets, Legal;
  }

  lemma AllRounds(mem: bytes, queryLen: nat, count: nat, questions: seq<Question>, used: nat, known: seq<Span>)
    requires HEADER_SIZE <= queryLen < |mem| && Repeating(mem, queryLen, questions, count, used, known)
    ensures QuestionsOf(mem, queryLen, count) == Ok(questions)
  {
  }

  lemma NoQuestions(mem: bytes, queryLen: nat, count: nat)
    requires HEADER_SIZE == queryLen < |mem| && count > 0
    ensures QuestionsOf(mem, queryLen, count) == Err(InvalidQuery)
  {
  }

  lemma NoCopies(q: Question)
    ensures Copies(q, 0) == []
  {
  }

  lemma FirstKnown(mem: bytes, queryLen: nat)
    requires HEADER_SIZE < queryLen < |mem|
    ensures var q := QuestionAt(mem, HEADER_SIZE, queryLen - HEADER_SIZE, [], HEADER_SIZE);
            q.Ok? ==> Inside(q.value.known, queryLen) && q.value.question.offset == HEADER_SIZE
  {
  }

  /** The question stands in the query, uncompressed, and can be copied. */
  predicate Copied(mem: bytes, queryLen: nat, q: Question, used: nat)
    requires HEADER_SIZE <= queryLen < |mem|
  {
    q.offset == used && Legal(q.labels) && HEADER_SIZE + q.GetSize() <= queryLen &&
    mem[HEADER_SIZE..HEADER_SIZE + q.GetSize()] == QuestionOctets(q.Asks())
  }

  // ----- what a reply has to say -----

  /** What is to become of a query: no reply, an error, or answers according to plan. */
  datatype Verdict = Silent | Fails(code: Rcode) | Answers(questions: seq<Question>, plan: Plan)

  function FailsWith(e: Problem): Verdict {
    if e.Code().Some? then Fails(e.Code().value) else Silent
  }

  function Judge(mgr: ZoneMgr, mem: bytes, queryLen: nat): Verdict
    requires queryLen < |mem|
  {
    if queryLen < HEADER_SIZE then Silent
    else
      var h := ReadHeader(mem);
      if h.flags.qr then Fails(FORMAT_ERROR)
      else if h.flags.opcode != 0 then Fails(NOT_IMPLEMENTED)
      else
        match QuestionsOf(mem, queryLen, h.qdcount)
        case Err(e) => FailsWith(e)
        case Ok(qs) =>
          match mgr.WholePlan(qs)
          case Err(e) => FailsWith(e)
          case Ok(plan) => Answers(qs, plan)
  }

  /**
   * Every section holds the front of what was planned for it, a section is begun only when the ones
   * before it are complete, and the reply counts as truncated exactly when something is missing.
   */
  predicate Sectioned(plan: Plan, an: seq<Planned>, ns: seq<Planned>, ar: seq<Planned>, truncated: bool) {
    an <= plan.answers && ns <= plan.authority && ar <= plan.additional &&
    (|an| < |plan.answers| ==> ns == []) && (|an| < |plan.answers| || |ns| < |plan.authority| ==> ar == []) &&
    (truncated <==> |an| < |plan.answers| || |ns| < |plan.authority| || |ar| < |plan.additional|)
  }

  function ErrorHeader(h: Header, code: Rcode): Header {
    Header(h.id, h.flags.(qr := true, rcode := code.Code()), 0, 0, 0, 0)
  }

  /** Only QR, AA, TC and RA are set; the operation, RD and the reply code stay as they came. */
  function ReplyFlags(f: Flags, authoritative: bool, truncated: bool): Flags {
    f.(qr := true, aa := authoritative, tc := truncated, ra := false)
  }

  predicate IsError(out: bytes, h: Header, code: Rcode) {
    |out| == HEADER_SIZE &&
    ReadMessage(out) == Some(Message(ErrorHeader(h, code), [], Sections([], [], [], HEADER_SIZE)))
  }

  /**
   * The reply reads as header, questions and three sections, according to plan; it has as many of the
   * planned records as 512 octets can hold.
   */
  ghost predicate Delivers(out: bytes, h: Header, qs: seq<Question>, plan: Plan,
                           an: seq<Planned>, ns: seq<Planned>, ar: seq<Planned>, truncated: bool) {
    |out| <= MAX_REPLY && Sectioned(plan, an, ns, ar, truncated) &&
    Longest(HEADER_SIZE + QuestionsRoom(qs), plan.All(), |an| + |ns| + |ar|) &&
    var m := ReadMessage(out);
    m.Some? && m.value.questions == AllAsk(qs) &&
    SectionsHold(out, m.value.sections, AllSay(an), AllSay(ns), AllSay(ar)) &&
    m.value.header.id == h.id && m.value.header.flags == ReplyFlags(h.flags, plan.authoritative, truncated)
  }

  /** The reply is what the verdict on the query demands. */
  ghost predicate Replies(mgr: ZoneMgr, mem: bytes, queryLen: nat, reply: Option<bytes>)
    requires queryLen < |mem|
  {
    match Judge(mgr, mem, queryLen)
    case Silent => reply == None
    case Fails(code) => reply.Some? && IsError(reply.value, ReadHeader(mem), code)
    case Answers(qs, plan) =>
      reply.Some? && exists an, ns, ar, truncated ::
        Delivers(reply.value, ReadHeader(mem), qs, plan, an, ns, ar, truncated)
  }

  /** A finished buffer with its header written reads as what was put into it. */
  lemma Finished(b: bytes, out: bytes, h: Header, qs: seq<Asked>, start: nat, an: seq<Record>, ns: seq<Record>,
                 ar: seq<Record>)
    requires HEADER_SIZE <= start && HEADER_SIZE <= |b| == |out|
    requires Extends(b, out) && ReadHeader(out) == h
    requires QuestionsAt(b, HEADER_SIZE, qs, start) && RecordsAt(b, start, an + ns + ar, |b|)
    requires h.qdcount == |qs| && h.ancount == |an| && h.nscount == |ns| && h.arcount == |ar|
    ensures var m := ReadMessage(out);
            m.Some? && m.value.header == h && m.value.questions == qs && SectionsHold(out, m.value.sections, an, ns, ar)
  {
    hide ReadHeader, QuestionsAt, RecordsAt, ReadBody, SectionsHold;
    QuestionsStable(b, out, HEADER_SIZE, qs, start);
    RecordsStable(b, out, start, an + ns + ar, |b|);
    ReadsBody(out, h, qs, start, an, ns, ar);
  }

  lemma AllSayThree(an: seq<Planned>, ns: seq<Planned>, ar: seq<Planned>)
    ensures AllSay(an + ns + ar) == AllSay(an) + AllSay(ns) + AllSay(ar)
  {
  }

  /** The buffer of a response, under its header, is the reply that was planned. */
  lemma DeliveredBy(b: bytes, out: bytes, query: Header, h: Header, qs: seq<Question>, plan: Plan, start: nat,
                    an: seq<Planned>, ns: seq<Planned>, ar: seq<Planned>, truncated: bool)
    requires HEADER_SIZE <= start == HEADER_SIZE + QuestionsRoom(qs) && HEADER_SIZE <= |b| == |out| <= MAX_REPLY
    requires Extends(b, out) && ReadHeader(out) == h
    requires QuestionsAt(b, HEADER_SIZE, AllAsk(qs), start) && RecordsAt(b, start, AllSay(an + ns + ar), |b|)
    requires Sectioned(plan, an, ns, ar, truncated) && Longest(start, plan.All(), |an| + |ns| + |ar|)
    requires h.id == query.id && h.flags == ReplyFlags(query.flags, plan.authoritative, truncated)
    requires h.qdcount == |qs| && h.ancount == |an| && h.nscount == |ns| && h.arcount == |ar|
    ensures Delivers(out, query, qs, plan, an, ns, ar, truncated)
  {
    hide ReadHeader, QuestionsAt, RecordsAt, ReadMessage, SectionsHold, Sectioned, Longest, QuestionsRoom;
    AllSayThree(an, ns, ar);
    Finished(b, out, h, AllAsk(qs), start, AllSay(an), AllSay(ns), AllSay(ar));
  }

  lemma SectionedBy(plan: Plan, an: seq<Planned>, ns: seq<Planned>, ar: seq<Planned>, truncated: bool)
    requires an <= plan.answers && ns <= plan.authority && ar <= plan.additional
    requires (|an| < |plan.answers| && truncated && ns == [] && ar == []) ||
             (|an| == |plan.answers| && |ns| < |plan.authority| && truncated && ar == []) ||
             (|an| == |plan.answers| && |ns| == |plan.authority| && (truncated <==> |ar| < |plan.additional|))
    ensures Sectioned(plan, an, ns, ar, truncated) && an + ns + ar == (an + ns) + ar
  {
  }

  lemma SplitStored(start: nat, before: seq<Planned>, after: seq<Planned>, plan: seq<Planned>, truncated: bool)
    returns (section: seq<Planned>)
    requires StoredAll(start, before, after, plan, truncated)
    ensures after == before + section && section <= plan && (truncated <==> |section| < |plan|)
    ensures truncated ==> start + Room(before + plan[..|section| + 1]) > MAX_REPLY
  {
    hide Room;
    section := after[|before|..];
    var all := before + plan;
    if truncated {
      assert section == all[|before|..|after|] == plan[..|section|];
      assert all[..|after| + 1] == before + plan[..|section| + 1];
    } else {
      assert section == plan;
    }
  }

  lemma LongestIs(start: nat, plan: seq<Planned>, front: seq<Planned>, next: seq<Planned>)
    requires |front| <= |plan| && plan[..|front|] == front && start + Room(front) <= MAX_REPLY
    requires |front| < |plan| ==> next == plan[..|front| + 1] && start + Room(next) > MAX_REPLY
    ensures Longest(start, plan, |front|)
  {
    hide Room;
  }

  /** The answers alone, cut short. */
  lemma LongestAnswers(start: nat, a: seq<Planned>, b: seq<Planned>, c: seq<Planned>, an: seq<Planned>)
    requires an < a && start + Room(an) <= MAX_REPLY && start + Room(a[..|an| + 1]) > MAX_REPLY
    ensures Longest(start, a + b + c, |an|)
  {
    hide Room, Longest;
    assert a[..|an|] == an;
    FrontOfFirst(a, b, c, |an|);
    FrontOfFirst(a, b, c, |an| + 1);
    LongestIs(start, a + b + c, an, a[..|an| + 1]);
  }

  lemma LongestAuthority(start: nat, a: seq<Planned>, b: seq<Planned>, c: seq<Planned>, ns: seq<Planned>)
    requires ns < b && start + Room(a + ns) <= MAX_REPLY && start + Room(a + b[..|ns| + 1]) > MAX_REPLY
    ensures Longest(start, a + b + c, |a| + |ns|)
  {
    hide Room, Longest;
    var all, front, next := a + b + c, a + ns, a + b[..|ns| + 1];
    assert b[..|ns|] == ns;
    FrontOfSecond(a, b, c, |ns|);
    FrontOfSecond(a, b, c, |ns| + 1);
    assert |front| == |a| + |ns| && |front| < |all|;
    assert all[..|front|] == front && all[..|front| + 1] == next;
    LongestIs(start, all, front, next);
  }

  lemma LongestAdditional(start: nat, a: seq<Planned>, b: seq<Planned>, c: seq<Planned>, ar: seq<Planned>)
    requires ar <= c && start + Room(a + b + ar) <= MAX_REPLY
    requires |ar| < |c| ==> start + Room(a + b + c[..|ar| + 1]) > MAX_REPLY
    ensures Longest(start, a + b + c, |a| + |b| + |ar|)
  {
    hide Room, Longest;
    var ab, all := a + b, a + b + c;
    if |ar| < |c| {
      LongestAuthority(start, ab, c, [], ar);
      assert ab + c + [] == all;
    } else {
      assert ar == c && all[..|all|] == all && |all| == |a| + |b| + |ar|;
      LongestIs(start, all, all, []);
    }
  }

  lemma FrontOfFirst<T>(a: seq<T>, b: seq<T>, c: seq<T>, k: nat)
    requires k <= |a|
    ensures (a + b + c)[..k] == a[..k]
  {
  }

  lemma FrontOfSecond<T>(a: seq<T>, b: seq<T>, c: seq<T>, k: nat)
    requires k <= |b|
    ensures (a + b + c)[..|a| + k] == a + b[..k]
  {
  }

  class DnsDaemon {
    const zoneMgr: ZoneMgr

    constructor (zoneMgr: ZoneMgr)
      ensures this.zoneMgr == zoneMgr
    {
      this.zoneMgr := zoneMgr;
    }

    method GetSoaZone(zone: Zone) returns (z: Option<Zone>)
      ensures z == zone.SoaZone()
    {
      z := Some(zone);
      while z.Some? && z.value.data.soa.None?
        invariant zone.SoaZone() == if z.Some? then z.value.SoaZone() else None
        decreases z
      {
        z := z.value.parent;
      }
    }

    method AddZone(zones: seq<Zone>, zone: Option<Zone>) returns (r: seq<Zone>)
      ensures r == zoneMgr.AddZone(zones, zone)
    {
      if zone.None? {
        return zones;
      }
      for k := 0 to |zones|
        invariant forall j :: 0 <= j < k ==> !(zoneMgr.shared && zones[j].id == zone.value.id)
      {
        if zoneMgr.shared && zones[k].id == zone.value.id {
          return zones;
        }
      }
      return zones + [zone.value];
    }

    method StoreCname(r: Response, zone: Zone, q: Question, n: uint16)
      returns (truncated: bool, n': uint16, fullCname: bytes)
      requires r.Ready() && n <= |r.records| && q in r.questions && zone.data.HaveCname()
      requires Planned(AtQuestion(q), Cname(FullCname(zone))).IsLegal()
      modifies r`records, r.reply`buffer, r.reply`labels, r.reply`hole
      ensures fullCname == FullCname(zone) && r.Framed() && (!truncated ==> r.Ready())
      ensures StoredAll(r.bodyStart, old(r.records), r.records, [Planned(AtQuestion(q), Cname(fullCname))], truncated)
      ensures n' == n + (|r.records| - |old(r.records)|)
    {
      hide NameAt, RecordsAt, QuestionsAt, IndexOk;
      fullCname := zone.data.Cname();
      if fullCname[|fullCname| - 1] != DOT {
        if zone.parent.Some? {
          fullCname := fullCname + [DOT];
          fullCname := fullCname + zone.parent.value.GetDomainName();
        }
      }
      ghost var plan := [Planned(AtQuestion(q), Cname(fullCname))];
      truncated, n' := r.Store(Planned(AtQuestion(q), Cname(fullCname)), n);
      StoredOne(r.bodyStart, old(r.records), r.records, plan[0], truncated);
    }

    /** Address queries, and queries for everything. */
    method AnswerAddresses(r: Response, zone: Zone, q: Question, n: uint16) returns (truncated: bool, n': uint16)
      requires r.Ready() && n <= |r.records| && q in r.questions && AllLegal(zoneMgr.AddressAnswers(q, zone))
      modifies r`records, r.reply`buffer, r.reply`labels, r.reply`hole
      ensures r.Framed() && (!truncated ==> r.Ready())
      ensures StoredAll(r.bodyStart, old(r.records), r.records, zoneMgr.AddressAnswers(q, zone), truncated)
      ensures n' == n + (|r.records| - |old(r.records)|)
    {
      hide NameAt, RecordsAt, QuestionsAt, IndexOk, StoredAll, FullCname;
      truncated, n' := false, n;
      ghost var plan := zoneMgr.AddressAnswers(q, zone);
      if zone.data.HaveCname() {
        assert plan[0] == Planned(AtQuestion(q), Cname(FullCname(zone)));
        var fullCname;
        truncated, n', fullCname := StoreCname(r, zone, q, n');
        ghost var aim := zoneMgr.lookup(Fragments(fullCname)).zone;
        assert plan == [plan[0]] +
                         if q.qtype == TYPE_A && aim.Some? then PlanAddresses(ByName(fullCname), aim.value.data)
                         else [];
        if q.qtype == TYPE_A {
          var target := zoneMgr.lookup(Fragments(fullCname)).zone;
          if target.Some? {
            assert plan[1..] == PlanAddresses(ByName(fullCname), target.value.data);
            ghost var mid := r.records;
            if truncated {
              StoredStop(r.bodyStart, old(r.records), mid, plan[..1], plan[1..]);
            } else {
              LegalSuffix(plan, 1);
              truncated, n' := StoreAddresses(r, ByName(fullCname), target.value.data, n');
              StoredThen(r.bodyStart, old(r.records), mid, r.records, plan[..1], plan[1..], truncated);
            }
            assert plan[..1] + plan[1..] == plan;
          } else {
            assert plan == [Planned(AtQuestion(q), Cname(fullCname))];
          }
        } else {
          assert plan == [Planned(AtQuestion(q), Cname(fullCname))];
        }
      } else if q.qtype == TYPE_A {
        truncated, n' := r.StoreA(AtQuestion(q), zone.data, n');
      } else if q.qtype == TYPE_AAAA {
        truncated, n' := r.StoreAaaa(AtQuestion(q), zone.data, n');
      } else {
        assert plan == [];
        StoredNothing(r.bodyStart, r.records);
      }
      assert StoredAll(r.bodyStart, old(r.records), r.records, plan, truncated);
    }

    method StoreAddresses(r: Response, owner: PlannedOwner, data: ZoneData, n: uint16)
      returns (truncated: bool, n': uint16)
      requires r.Ready() && n <= |r.records| && r.KnowsOwner(owner) && AllLegal(PlanAddresses(owner, data))
      modifies r`records, r.reply`buffer, r.reply`labels, r.reply`hole
      ensures r.Framed() && (!truncated ==> r.Ready())
      ensures StoredAll(r.bodyStart, old(r.records), r.records, PlanAddresses(owner, data), truncated)
      ensures n' == n + (|r.records| - |old(r.records)|)
    {
      hide NameAt, RecordsAt, QuestionsAt, IndexOk, StoredAll, PlanA, PlanAaaa;
      ghost var p1, p2 := PlanA(owner, data), PlanAaaa(owner, data);
      LegalParts(p1, p2);
      truncated, n' := r.StoreA(owner, data, n);
      ghost var mid := r.records;
      if truncated {
        StoredStop(r.bodyStart, old(r.records), mid, p1, p2);
        return;
      }
      truncated, n' := r.StoreAaaa(owner, data, n');
      StoredThen(r.bodyStart, old(r.records), mid, r.records, p1, p2, truncated);
    }

    /** Stores a record that names a server, and notes the zone the server is in. */
    method StoreServer(r: Response, ghost before: seq<Planned>, ghost plan: seq<Planned>, ghost k: nat, p: Planned,
                       n: uint16, ghost zones0: seq<Zone>, ghost names: seq<bytes>, fqdn: bytes, zones: seq<Zone>)
      returns (truncated: bool, n': uint16, zones': seq<Zone>)
      requires r.Ready() && n <= |r.records| && r.KnowsOwner(p.owner)
      requires AllLegal(plan) && k < |plan| && plan[k] == p &&
               StoredAll(r.bodyStart, before, r.records, plan[..k], false)
      requires k < |names| && names[k] == fqdn && zones == zoneMgr.AddServers(zones0, names[..k])
      modifies r`records, r.reply`buffer, r.reply`labels, r.reply`hole
      ensures r.Framed() && n' == n + (|r.records| - |old(r.records)|) && n' <= |r.records|
      ensures !truncated ==>
                r.Ready() && |r.records| == |old(r.records)| + 1 &&
                StoredAll(r.bodyStart, before, r.records, plan[..k + 1], false)
      ensures truncated ==> r.records == old(r.records) && StoredAll(r.bodyStart, before, r.records, plan, true)
      ensures !truncated ==> zones' == zoneMgr.AddServers(zones0, names[..k + 1])
    {
      hide *;
      zones' := zones;
      truncated, n' := r.StoreNth(before, plan, k, p, n);
      if !truncated {
        AddServersSnoc(zoneMgr, zones0, names[..k], fqdn);
        assert names[..k + 1] == names[..k] + [fqdn];
        zones' := AddZone(zones, zoneMgr.lookup(Fragments(fqdn)).zone);
      }
    }

    /** Mail exchangers; their addresses may go into the additional section. */
    method AnswerMx(r: Response, zone: Zone, q: Question, n: uint16, nsZones: seq<Zone>)
      returns (truncated: bool, n': uint16, nsZones': seq<Zone>)
      requires r.Ready() && n <= |r.records| && q in r.questions
      requires zone.data.mx.Some? && AllLegal(PlanMx(q, zone, zone.data.mx.value))
      modifies r`records, r.reply`buffer, r.reply`labels, r.reply`hole
      ensures r.Framed() && (!truncated ==> r.Ready())
      ensures StoredAll(r.bodyStart, old(r.records), r.records, PlanMx(q, zone, zone.data.mx.value), truncated)
      ensures n' == n + (|r.records| - |old(r.records)|)
      ensures !truncated ==> nsZones' == zoneMgr.AddServers(nsZones, zoneMgr.ServerNames(zone, MxHosts(zone.data)))
    {
      hide NameAt, RecordsAt, QuestionsAt, IndexOk, Room, KnownAfter, QuestionsRoom, NamesOf, AllLegal;
      var mxs := zone.data.mx.value;
      ghost var plan := PlanMx(q, zone, mxs);
      ghost var names := zoneMgr.ServerNames(zone, MxHosts(zone.data));
      truncated, n', nsZones' := false, n, nsZones;
      StoredNothing(r.bodyStart, r.records);
      assert plan[..0] == [] && names[..0] == [];
      hide StoredAll, Response.Ready, Response.Framed, Fqdn, Fragments, PlanMx, MxHosts, Zone.GetDomainName,
           ZoneMgr.AddZone, ZoneMgr.AddServers, ZoneMgr.ServerNames;
      for k := 0 to |mxs|
        invariant r.Ready() && StoredAll(r.bodyStart, old(r.records), r.records, plan[..k], false)
        invariant n' == n + k && |r.records| == |old(r.records)| + k
        invariant nsZones' == zoneMgr.AddServers(nsZones, names[..k])
      {
        var fqdn := Fqdn(mxs[k].fqdn, zone.GetDomainName());
        var p := Planned(AtQuestion(q), Answers.Mx(mxs[k].priority % 0x1_0000, fqdn));
        NthMx(zoneMgr, q, zone, k);
        truncated, n', nsZones' := StoreServer(r, old(r.records), plan, k, p, n', nsZones, names, fqdn, nsZones');
        if truncated {
          return;
        }
      }
      assert plan[..|mxs|] == plan && names[..|mxs|] == names;
    }

    /** The name servers of a zone, for the authority section. */
    method ProcessNsAuthZone(r: Response, zone: Zone, n: uint16, nsZones: seq<Zone>)
      returns (truncated: bool, n': uint16, nsZones': seq<Zone>)
      requires r.Ready() && n <= |r.records| && AllLegal(PlanNs(zone, NsHosts(zone.data)))
      modifies r`records, r.reply`buffer, r.reply`labels, r.reply`hole
      ensures r.Framed() && (!truncated ==> r.Ready())
      ensures StoredAll(r.bodyStart, old(r.records), r.records, PlanNs(zone, NsHosts(zone.data)), truncated)
      ensures n' == n + (|r.records| - |old(r.records)|)
      ensures !truncated ==> nsZones' == zoneMgr.AddServers(nsZones, zoneMgr.ServerNames(zone, NsHosts(zone.data)))
    {
      hide NameAt, RecordsAt, QuestionsAt, IndexOk, Room, KnownAfter, QuestionsRoom, NamesOf, AllLegal;
      var hosts := NsHosts(zone.data);
      ghost var plan := PlanNs(zone, hosts);
      ghost var names := zoneMgr.ServerNames(zone, hosts);
      truncated, n', nsZones' := false, n, nsZones;
      StoredNothing(r.bodyStart, r.records);
      assert plan[..0] == [] && names[..0] == [];
      hide StoredAll, Response.Ready, Response.Framed, Fqdn, Fragments, PlanNs, Zone.GetDomainName, ZoneMgr.AddZone,
           ZoneMgr.AddServers, ZoneMgr.ServerNames;
      for k := 0 to |hosts|
        invariant r.Ready() && StoredAll(r.bodyStart, old(r.records), r.records, plan[..k], false)
        invariant n' == n + k && |r.records| == |old(r.records)| + k
        invariant nsZones' == zoneMgr.AddServers(nsZones, names[..k])
      {
        var fqdn := Fqdn(hosts[k], zone.GetDomainName());
        var p := Planned(ByName(zone.GetDomainName()), Ns(fqdn));
        NthNs(zoneMgr, zone, hosts, k);
        truncated, n', nsZones' := StoreServer(r, old(r.records), plan, k, p, n', nsZones, names, fqdn, nsZones');
        if truncated {
          return;
        }
      }
      assert plan[..|hosts|] == plan && names[..|hosts|] == names;
    }

    /** The addresses of a zone, for the additional section. */
    method ProcessNsZone(r: Response, zone: Zone, n: uint16) returns (truncated: bool, n': uint16)
      requires r.Ready() && n <= |r.records| && AllLegal(PlanAddresses(ByName(zone.GetDomainName()), zone.data))
      modifies r`records, r.reply`buffer, r.reply`labels, r.reply`hole
      ensures r.Framed() && (!truncated ==> r.Ready())
      ensures StoredAll(r.bodyStart, old(r.records), r.records, PlanAddresses(ByName(zone.GetDomainName()), zone.data),
                        truncated)
      ensures n' == n + (|r.records| - |old(r.records)|)
    {
      truncated, n' := StoreAddresses(r, ByName(zone.GetDomainName()), zone.data, n);
    }

    /** The answers proper; what follows in ProcessQuestion is the text record and the list of authorities. */
    method MainAnswers(r: Response, zone: Zone, soaZone: Option<Zone>, q: Question, n: uint16, nsZones: seq<Zone>)
      returns (truncated: bool, n': uint16, nsZones': seq<Zone>)
      requires r.Ready() && n <= |r.records| && q in r.questions && AllLegal(zoneMgr.MainAnswers(q, zone))
      requires soaZone == zone.SoaZone() && (q.qtype == TYPE_SOA ==> soaZone.Some?)
      modifies r`records, r.reply`buffer, r.reply`labels, r.reply`hole
      ensures r.Framed() && (!truncated ==> r.Ready())
      ensures StoredAll(r.bodyStart, old(r.records), r.records, zoneMgr.MainAnswers(q, zone), truncated)
      ensures n' == n + (|r.records| - |old(r.records)|)
      ensures !truncated ==> nsZones' == zoneMgr.AddServers(nsZones,
                                           if q.qtype == TYPE_MX then zoneMgr.ServerNames(zone, MxHosts(zone.data))
                                           else [])
    {
      hide NameAt, RecordsAt, QuestionsAt, IndexOk, StoredAll, FullCname, PlanMx;
      truncated, n', nsZones' := false, n, nsZones;
      ghost var plan := zoneMgr.MainAnswers(q, zone);
      if q.qtype == TYPE_A || q.qtype == TYPE_AAAA || q.qtype == QTYPE_ALL {
        truncated, n' := AnswerAddresses(r, zone, q, n');
      } else if q.qtype == TYPE_CNAME && zone.data.HaveCname() {
        assert plan[0] == Planned(AtQuestion(q), Cname(FullCname(zone)));
        var fullCname;
        truncated, n', fullCname := StoreCname(r, zone, q, n');
      } else if q.qtype == TYPE_SOA {
        var p := Planned(AtQuestion(q), Answers.Soa(soaZone.value.data.soa.value, soaZone.value.Labels()));
        assert plan == [p] && plan[0].IsLegal();
        truncated, n' := r.Store(p, n');
        StoredOne(r.bodyStart, old(r.records), r.records, p, truncated);
      } else if q.qtype == TYPE_MX && zone.data.mx.Some? {
        truncated, n', nsZones' := AnswerMx(r, zone, q, n', nsZones');
      } else {
        assert plan == [];
        StoredNothing(r.bodyStart, r.records);
      }
    }

    /** The text record, if it is asked for and there is one. */
    method AnswerText(r: Response, zone: Zone, q: Question, n: uint16) returns (truncated: bool, n': uint16)
      requires r.Ready() && n <= |r.records| && q in r.questions
      modifies r`records, r.reply`buffer, r.reply`labels, r.reply`hole
      ensures r.Framed() && (!truncated ==> r.Ready())
      ensures StoredAll(r.bodyStart, old(r.records), r.records, zoneMgr.TextAnswers(q, zone), truncated)
      ensures n' == n + (|r.records| - |old(r.records)|)
    {
      hide NameAt, RecordsAt, QuestionsAt, IndexOk, StoredAll, Room, KnownAfter, QuestionsRoom, NamesOf;
      truncated, n' := false, n;
      if q.qtype == TYPE_TXT || q.qtype == QTYPE_ALL {
        if zone.data.HaveTxt() {
          truncated, n' := r.Store(Planned(AtQuestion(q), Txt(zone.data.Text())), n');
          StoredOne(r.bodyStart, old(r.records), r.records, Planned(AtQuestion(q), Txt(zone.data.Text())), truncated);
          return;
        }
      }
      StoredNothing(r.bodyStart, r.records);
    }

    /** Stores the answers to one question and notes which zones the other sections are about. */
    method ProcessQuestion(r: Response, q: Question, n: uint16, authoritative: bool, authZones: seq<Zone>,
                           nsZones: seq<Zone>)
      returns (status: Status, n': uint16, authoritative': bool, authZones': seq<Zone>, nsZones': seq<Zone>)
      requires r.Ready() && n <= |r.records| && q in r.questions
      requires zoneMgr.PlanQuestion(q).Ok? ==> AllLegal(zoneMgr.PlanQuestion(q).value.answers)
      modifies r`records, r.reply`buffer, r.reply`labels, r.reply`hole
      ensures match zoneMgr.PlanQuestion(q)
              case Err(e) => status == Threw(e) && r.records == old(r.records)
              case Ok(plan) =>
                !status.Threw? && StoredAll(r.bodyStart, old(r.records), r.records, plan.answers, status.Truncated?) &&
                authoritative' == (authoritative && plan.authoritative) &&
                (status.Fine? ==> authZones' == zoneMgr.AddZone(authZones, plan.authority) &&
                                  nsZones' == zoneMgr.AddServers(nsZones, plan.servers))
      ensures r.Framed() && (status.Fine? ==> r.Ready())
      ensures n' == n + (|r.records| - |old(r.records)|)
    {
      hide NameAt, RecordsAt, QuestionsAt, IndexOk, StoredAll, Room, KnownAfter, QuestionsRoom, NamesOf;
      hide ZoneMgr.MainAnswers, ZoneMgr.TextAnswers, ZoneMgr.ServerNames;
      n', authoritative', authZones', nsZones' := n, authoritative, authZones, nsZones;
      var found := zoneMgr.lookup(q.labels);
      if found.zone.None? {
        status := Threw(if found.authority then UnknownSubDomain else UnknownDomain);
        return;
      }
      var zone := found.zone.value;
      var soaZone := GetSoaZone(zone);
      if soaZone.None? || !soaZone.value.data.authorative {
        authoritative' := false;
      }
      if q.qtype == TYPE_SOA && soaZone.None? {
        status := Threw(NoSoaRecord);
        return;
      }
      ghost var p1, p2 := zoneMgr.MainAnswers(q, zone), zoneMgr.TextAnswers(q, zone);
      LegalParts(p1, p2);
      var truncated;
      truncated, n', nsZones' := MainAnswers(r, zone, soaZone, q, n', nsZones');
      ghost var mid := r.records;
      if truncated {
        StoredStop(r.bodyStart, old(r.records), mid, p1, p2);
        status := Truncated;
        return;
      }
      if q.qtype == TYPE_SOA || q.qtype == TYPE_NS {
        authZones' := AddZone(authZones', soaZone);
      }
      truncated, n' := AnswerText(r, zone, q, n');
      StoredThen(r.bodyStart, old(r.records), mid, r.records, p1, p2, truncated);
      if truncated {
        status := Truncated;
        return;
      }
      if q.qtype == QTYPE_ALL {
        authZones' := AddZone(authZones', soaZone);
      }
      status := Fine;
    }

    /** First pass: parse and copy the questions. */
    method ReadQuestions(r: Response, mem: bytes, queryLen: nat, count: uint16)
      returns (res: Result<seq<Question>, Problem>)
      requires HEADER_SIZE <= queryLen < |mem|
      requires r.Ready() && r.questions == [] && r.records == [] && |r.reply.buffer| == HEADER_SIZE
      modifies r`questions, r`bodyStart, r.reply`buffer
      ensures res == QuestionsOf(mem, queryLen, count)
      ensures res.Ok? ==> r.Ready() && r.questions == res.value
    {
      hide Response.Ready, Response.Framed, QuestionAt, Copies, QuestionOctets, NameAt, RecordsAt, QuestionsAt, IndexOk,
           Room, QuestionsRoom, KnownAfter, Encode, Run, Legal, ReadQuestion;
      var bytesLeft := queryLen - HEADER_SIZE;
      var pointers := new KnownLabels();
      var questions: seq<Question> := [];
      for i := 0 to count
        invariant r.Ready() && r.questions == questions && r.records == [] && fresh(pointers)
        invariant Repeating(mem, queryLen, questions, i, |r.reply.buffer|, pointers.spans)
      {
        if bytesLeft == 0 {
          NoQuestions(mem, queryLen, count);
          return Err(InvalidQuery);
        }
        var p := queryLen - bytesLeft;
        NextRound(mem, queryLen, count, questions, i, |r.reply.buffer|, pointers.spans);
        hide Repeating, QuestionsOf;
        var parsed := ParseQuestion(mem, p, bytesLeft, pointers, |r.reply.buffer|);
        if parsed.Err? {
          return Err(BadName(parsed.error));
        }
        var question := parsed.value;
        if question.qclass != CLASS_IN {
          return Err(RefusedQuery);
        }
        var newLen := |r.reply.buffer| + question.GetSize();
        if newLen < MAX_REPLY {
          r.CopyQuestion(mem[p..p + question.GetSize()], question);
          questions := questions + [question];
        } else {
          return Err(InvalidQuery);
        }
      }
      AllRounds(mem, queryLen, count, questions, |r.reply.buffer|, pointers.spans);
      return Ok(questions);
    }

    /** The answers to all questions, one after the other. */
    method AnswerQuestions(r: Response, questions: seq<Question>)
      returns (status: Status, n: uint16, authoritative: bool, authZones: seq<Zone>, nsZones: seq<Zone>)
      requires r.Ready() && r.records == [] && r.questions == questions && Alike(questions)
      requires zoneMgr.PlanQuestions(questions).Ok? ==> AllLegal(zoneMgr.PlanQuestions(questions).value.answers)
      modifies r`records, r.reply`buffer, r.reply`labels, r.reply`hole
      ensures r.Framed() && (status.Fine? ==> r.Ready()) && n == |r.records|
      ensures match zoneMgr.PlanQuestions(questions)
              case Err(e) => status == Threw(e)
              case Ok(g) =>
                !status.Threw? && StoredAll(r.bodyStart, [], r.records, g.answers, status.Truncated?) &&
                authoritative == g.authoritative &&
                (status.Fine? ==> authZones == g.authority && nsZones == g.servers)
    {
      hide NameAt, RecordsAt, QuestionsAt, IndexOk, StoredAll, ZoneMgr.PlanQuestion, ZoneMgr.AddZone,
           ZoneMgr.AddServers;
      status, n, authoritative, authZones, nsZones := Fine, 0, true, [], [];
      StoredNothing(r.bodyStart, []);
      ghost var whole := zoneMgr.PlanQuestions(questions);
      for i := 0 to |questions|
        invariant status.Fine? && r.Ready() && n == |r.records|
        invariant zoneMgr.PlanQuestions(questions[..i]).Ok?
        invariant zoneMgr.PlanQuestions(questions[..i]).value.authoritative == authoritative
        invariant zoneMgr.PlanQuestions(questions[..i]).value.authority == authZones
        invariant zoneMgr.PlanQuestions(questions[..i]).value.servers == nsZones
        invariant StoredAll(r.bodyStart, [], r.records, zoneMgr.PlanQuestions(questions[..i]).value.answers, false)
      {
        var q := questions[i];
        ghost var before, g := r.records, zoneMgr.PlanQuestions(questions[..i]).value;
        PlanNext(zoneMgr, questions, i);
        if zoneMgr.PlanQuestion(q).Ok? {
          AlikeOk(zoneMgr, questions, i);
          PlanPrefix(zoneMgr, questions, i + 1);
          LegalMiddle(g.answers, zoneMgr.PlanQuestion(q).value.answers, whole.value.answers);
        }
        status, n, authoritative, authZones, nsZones := ProcessQuestion(r, q, n, authoritative, authZones, nsZones);
        if status.Threw? {
          PlanFails(zoneMgr, questions, i + 1);
          return;
        }
        StoredThen(r.bodyStart, [], before, r.records, g.answers, zoneMgr.PlanQuestion(q).value.answers,
                   status.Truncated?);
        if status.Truncated? {
          StoredShort(r.bodyStart, [], r.records, zoneMgr.PlanQuestions(questions[..i + 1]).value.answers,
                      whole.value.answers);
          return;
        }
      }
      assert questions[..|questions|] == questions;
    }

    /** The authority section: the name servers of every zone that was gathered. */
    method AddAuthority(r: Response, authZones: seq<Zone>, nsZones: seq<Zone>)
      returns (truncated: bool, n: uint16, nsZones': seq<Zone>)
      requires r.Ready() && AllLegal(zoneMgr.PlanAuthority(authZones))
      modifies r`records, r.reply`buffer, r.reply`labels, r.reply`hole
      ensures r.Framed() && (!truncated ==> r.Ready())
      ensures StoredAll(r.bodyStart, old(r.records), r.records, zoneMgr.PlanAuthority(authZones), truncated)
      ensures n == |r.records| - |old(r.records)|
      ensures !truncated ==> nsZones' == zoneMgr.WithNameServers(nsZones, authZones)
    {
      hide NameAt, RecordsAt, QuestionsAt, IndexOk, StoredAll, PlanNs, NsHosts, Zone.GetDomainName, ZoneMgr.AddServers;
      truncated, n, nsZones' := false, 0, nsZones;
      StoredNothing(r.bodyStart, r.records);
      ghost var whole := zoneMgr.PlanAuthority(authZones);
      for i := 0 to |authZones|
        invariant r.Ready() && n == |r.records| - |old(r.records)|
        invariant StoredAll(r.bodyStart, old(r.records), r.records, zoneMgr.PlanAuthority(authZones[..i]), false)
        invariant nsZones' == zoneMgr.WithNameServers(nsZones, authZones[..i])
      {
        var z := authZones[i];
        ghost var before := r.records;
        ghost var p, p' := zoneMgr.PlanAuthority(authZones[..i]), PlanNs(z, NsHosts(z.data));
        assert authZones[..i + 1][..i] == authZones[..i];
        AuthorityPrefix(zoneMgr, authZones, i + 1);
        LegalMiddle(p, p', whole);
        truncated, n, nsZones' := ProcessNsAuthZone(r, z, n, nsZones');
        StoredThen(r.bodyStart, old(r.records), before, r.records, p, p', truncated);
        if truncated {
          StoredShort(r.bodyStart, old(r.records), r.records, p + p', whole);
          return;
        }
      }
      assert authZones[..|authZones|] == authZones;
    }

    /** The additional section: the addresses of every name or mail server we know. */
    method AddAdditional(r: Response, nsZones: seq<Zone>) returns (truncated: bool, n: uint16)
      requires r.Ready() && AllLegal(zoneMgr.PlanAdditional(nsZones))
      modifies r`records, r.reply`buffer, r.reply`labels, r.reply`hole
      ensures r.Framed() && (!truncated ==> r.Ready())
      ensures StoredAll(r.bodyStart, old(r.records), r.records, zoneMgr.PlanAdditional(nsZones), truncated)
      ensures n == |r.records| - |old(r.records)|
    {
      hide NameAt, RecordsAt, QuestionsAt, IndexOk, StoredAll, PlanAddresses, Zone.GetDomainName;
      truncated, n := false, 0;
      StoredNothing(r.bodyStart, r.records);
      ghost var whole := zoneMgr.PlanAdditional(nsZones);
      for i := 0 to |nsZones|
        invariant r.Ready() && n == |r.records| - |old(r.records)|
        invariant StoredAll(r.bodyStart, old(r.records), r.records, zoneMgr.PlanAdditional(nsZones[..i]), false)
      {
        var z := nsZones[i];
        ghost var before := r.records;
        ghost var p, p' := zoneMgr.PlanAdditional(nsZones[..i]), PlanAddresses(ByName(z.GetDomainName()), z.data);
        assert nsZones[..i + 1][..i] == nsZones[..i];
        AdditionalPrefix(zoneMgr, nsZones, i + 1);
        LegalMiddle(p, p', whole);
        truncated, n := ProcessNsZone(r, z, n);
        StoredThen(r.bodyStart, old(r.records), before, r.records, p, p', truncated);
        if truncated {
          StoredShort(r.bodyStart, old(r.records), r.records, p + p', whole);
          return;
        }
      }
      assert nsZones[..|nsZones|] == nsZones;
    }

    /** The three sections behind the questions. */
    method FillSections(r: Response, questions: seq<Question>, ghost plan: Plan)
      returns (problem: Option<Problem>, truncated: bool, authoritative: bool,
               numAnswers: uint16, numNs: uint16, numOpt: uint16,
               ghost an: seq<Planned>, ghost ns: seq<Planned>, ghost ar: seq<Planned>)
      requires r.Ready() && r.records == [] && r.questions == questions && Alike(questions)
      requires zoneMgr.WholePlan(questions).Ok? ==> plan == zoneMgr.WholePlan(questions).value && AllLegal(plan.All())
      modifies r`records, r.reply`buffer, r.reply`labels, r.reply`hole
      ensures match zoneMgr.WholePlan(questions)
              case Err(e) => problem == Some(e)
              case Ok(_) =>
                problem == None && r.Framed() && r.records == an + ns + ar && authoritative == plan.authoritative &&
                Sectioned(plan, an, ns, ar, truncated) && Longest(r.bodyStart, plan.All(), |an| + |ns| + |ar|) &&
                numAnswers == |an| && numNs == |ns| && numOpt == |ar|
    {
      hide Response.Ready, StoredAll, AllSay, Sectioned, Alike, AllLegal, RecordsAt, QuestionsAt, Room, QuestionsRoom,
           Longest;
      hide ZoneMgr.PlanQuestions, ZoneMgr.PlanAuthority, ZoneMgr.PlanAdditional, ZoneMgr.WithNameServers;
      an, ns, ar := [], [], [];
      problem, truncated, numNs, numOpt := None, false, 0, 0;
      if zoneMgr.WholePlan(questions).Ok? {
        LegalParts(plan.answers + plan.authority, plan.additional);
        LegalParts(plan.answers, plan.authority);
      }
      var status, authZones, nsZones;
      status, numAnswers, authoritative, authZones, nsZones := AnswerQuestions(r, questions);
      if status.Threw? {
        problem := Some(status.problem);
        return;
      }
      an := SplitStored(r.bodyStart, [], r.records, plan.answers, status.Truncated?);
      truncated := status.Truncated?;
      ghost var mid := r.records;
      assert [] + an == an && an + [] + [] == an;
      if truncated {
        assert [] + plan.answers[..|an| + 1] == plan.answers[..|an| + 1];
        LongestAnswers(r.bodyStart, plan.answers, plan.authority, plan.additional, an);
      } else {
        truncated, numNs, nsZones := AddAuthority(r, authZones, nsZones);
        ns := SplitStored(r.bodyStart, mid, r.records, plan.authority, truncated);
        mid := r.records;
        assert an == plan.answers && mid == an + ns && mid + [] == an + ns + [];
        if truncated {
          LongestAuthority(r.bodyStart, plan.answers, plan.authority, plan.additional, ns);
        } else {
          truncated, numOpt := AddAdditional(r, nsZones);
          ar := SplitStored(r.bodyStart, mid, r.records, plan.additional, truncated);
          assert ns == plan.authority;
          LongestAdditional(r.bodyStart, plan.answers, plan.authority, plan.additional, ar);
        }
      }
      SectionedBy(plan, an, ns, ar, truncated);
    }

    method ProcessQuestions(mem: bytes, queryLen: nat, header: MessageHeader) returns (res: Result<bytes, Problem>)
      requires HEADER_SIZE <= queryLen < |mem|
      requires match QuestionsOf(mem, queryLen, header.qdcount)
               case Err(_) => true
               case Ok(qs) => zoneMgr.WholePlan(qs).Ok? ==> AllLegal(zoneMgr.WholePlan(qs).value.All())
      ensures match QuestionsOf(mem, queryLen, header.qdcount)
              case Err(e) => res == Err(e)
              case Ok(qs) =>
                match zoneMgr.WholePlan(qs)
                case Err(e) => res == Err(e)
                case Ok(plan) =>
                  res.Ok? && exists an, ns, ar, truncated ::
                    Delivers(res.value, header.View(), qs, plan, an, ns, ar, truncated)
    {
      hide Response.Ready, QuestionsOf, ZoneMgr.WholePlan, Delivers, Sectioned, Longest, Room, QuestionsRoom,
           RecordsAt, QuestionsAt, AllSay, AllAsk;
      var r := new Response();
      r.Begin();
      var replyHdr := new MessageHeader.Copy(header);
      var parsed := ReadQuestions(r, mem, queryLen, header.qdcount);
      if parsed.Err? {
        return Err(parsed.error);
      }
      var questions := parsed.value;
      CopiesAlike(mem, queryLen, header.qdcount);
      ghost var plan :=
        if zoneMgr.WholePlan(questions).Ok? then zoneMgr.WholePlan(questions).value else Plan([], [], [], true);
      ghost var an, ns, ar;
      var problem, truncated, authoritative, numAnswers, numNs, numOpt;
      problem, truncated, authoritative, numAnswers, numNs, numOpt, an, ns, ar := FillSections(r, questions, plan);
      if problem.Some? {
        return Err(problem.value);
      }
      replyHdr.SetTc(truncated);
      replyHdr.SetQr(true);
      replyHdr.SetRa(false);
      replyHdr.SetAa(authoritative);
      replyHdr.SetCounters(|questions|, numAnswers, numNs, numOpt);
      var out := replyHdr.Write(r.reply.buffer);
      DeliveredBy(r.reply.buffer, out, header.View(), replyHdr.View(), questions, plan, r.bodyStart, an, ns, ar,
                  truncated);
      return Ok(out);
    }

    method CreateErrorReply(code: Rcode, hdr: MessageHeader) returns (out: bytes)
      ensures IsError(out, hdr.View(), code)
    {
      var replyHdr := new MessageHeader.Copy(hdr);
      replyHdr.SetQr(true);
      replyHdr.SetRcode(code);
      replyHdr.SetCounters(0, 0, 0, 0);
      out := replyHdr.Write(seq(HEADER_SIZE, _ => 0));
      HeaderOnly(out, ErrorHeader(hdr.View(), code));
    }

    /** The reply to one datagram; None if there is to be no reply. */
    method ProcesssQuerey(mem: bytes, queryLen: nat) returns (reply: Option<bytes>)
      requires queryLen < |mem|
      requires var v := Judge(zoneMgr, mem, queryLen); v.Answers? ==> AllLegal(v.plan.All())
      ensures Replies(zoneMgr, mem, queryLen, reply)
    {
      hide QuestionsOf, ZoneMgr.WholePlan, Delivers, IsError, ReadHeader;
      if queryLen < HEADER_SIZE {
        return None;
      }
      var header := new MessageHeader.Parse(mem);
      if header.GetQr() {
        var out := CreateErrorReply(FORMAT_ERROR, header);
        return Some(out);
      }
      if header.GetOpcode() != 0 {
        var out := CreateErrorReply(NOT_IMPLEMENTED, header);
        return Some(out);
      }
      var res := ProcessQuestions(mem, queryLen, header);
      if res.Ok? {
        return Some(res.value);
      }
      if res.error.Code().None? {
        return None;
      }
      var out := CreateErrorReply(res.error.Code().value, header);
      return Some(out);
    }
  }

  lemma HeaderOnly(out: bytes, h: Header)
    requires |out| == HEADER_SIZE && ReadHeader(out) == h
    requires h.qdcount == 0 && h.ancount == 0 && h.nscount == 0 && h.arcount == 0
    ensures ReadMessage(out) == Some(Message(h, [], Sections([], [], [], HEADER_SIZE)))
  {
    hide ReadHeader;
    assert ReadFrames(out, HEADER_SIZE, 0) == Some(([], HEADER_SIZE));
    assert ReadQuestions(out, HEADER_SIZE, 0) == Some(([], HEADER_SIZE));
    BodyIs(out, h, [], HEADER_SIZE, Sections([], [], [], HEADER_SIZE));
  }

  lemma CopiesAlike(mem: bytes, queryLen: nat, count: nat)
    requires HEADER_SIZE <= queryLen < |mem| && QuestionsOf(mem, queryLen, count).Ok?
    ensures Alike(QuestionsOf(mem, queryLen, count).value) && |QuestionsOf(mem, queryLen, count).value| == count
  {
  }
}
