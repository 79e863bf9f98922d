/** The reply under construction: questions, then records, never more than 512 octets. */
module Responses {
  import opened Bytes
  import opened Compression
  import opened DomainNames
  import opened Messages
  import opened Zones
  import opened LabelHeaders
  import opened Answers
  import opened DnsPlans

  const MAX_REPLY: nat := 512

  // ----- the response under construction -----

  /** The question's name can be pointed at. */
  predicate NamedAt(b: bytes, q: Question) {
    q.offset < MAX_OFFSET && NameAt(b, NO_HOLE, q.offset, q.offset) == Some(q.labels)
  }

  function AllAsk(qs: seq<Question>): (r: seq<Asked>)
    ensures |r| == |qs| && forall k :: 0 <= k < |qs| ==> r[k] == qs[k].Asks()
  {
    seq(|qs|, k requires 0 <= k < |qs| => qs[k].Asks())
  }

  predicate AllNamed(b: bytes, qs: seq<Question>) {
    forall k :: 0 <= k < |qs| ==> NamedAt(b, qs[k])
  }

  lemma AllNamedStable(b: bytes, b': bytes, qs: seq<Question>)
    requires AllNamed(b, qs) && Extends(b, b')
    ensures AllNamed(b', qs)
  {
    forall k | 0 <= k < |qs| ensures NamedAt(b', qs[k]) {
      assert NamedAt(b, qs[k]);
      Frame(b, NO_HOLE, b', NO_HOLE, qs[k].offset, qs[k].offset);
    }
  }

  // ----- how much room the plan takes -----

  /** The names that a record leaves behind for later ones to point at. */
  ghost function NamesIn(p: Planned): set<seq<bytes>> {
    {p.OwnerLabels()} + AllOf(FragmentsOf(p.rdata.Names()))
  }

  ghost function KnownAfter(ps: seq<Planned>): set<seq<bytes>> {
    if ps == [] then {} else KnownAfter(ps[..|ps| - 1]) + NamesIn(ps[|ps| - 1])
  }

  /** The octets of one record in a reply that knows these names. */
  ghost function RecordRoom(known: set<seq<bytes>>, p: Planned): nat {
    (if p.owner.AtQuestion? then 2 else NameRoom(known, Fragments(p.owner.name))) + 10 +
    DataRoom(known + {p.OwnerLabels()}, p.rdata)
  }

  /** The octets of all these records, each compressed against those before it. */
  ghost function Room(ps: seq<Planned>): nat {
    if ps == [] then 0 else Room(ps[..|ps| - 1]) + RecordRoom(KnownAfter(ps[..|ps| - 1]), ps[|ps| - 1])
  }

  lemma NothingKnown()
    ensures KnownAfter([]) == {} && Room([]) == 0 && QuestionsRoom([]) == 0
  {
  }

  lemma RoomSnoc(ps: seq<Planned>, p: Planned)
    ensures Room(ps + [p]) == Room(ps) + RecordRoom(KnownAfter(ps), p)
    ensures KnownAfter(ps + [p]) == KnownAfter(ps) + NamesIn(p)
  {
    assert (ps + [p])[..|ps|] == ps;
  }

  lemma {:induction false} RoomGrows(ps: seq<Planned>, i: nat, j: nat)
    requires i <= j <= |ps|
    ensures Room(ps[..i]) + 11 * (j - i) <= Room(ps[..j])
    decreases j
  {
    hide Room, KnownAfter, RecordRoom;
    if i < j {
      var front, p := ps[..j - 1], ps[j - 1];
      RoomGrows(ps, i, j - 1);
      assert ps[..j] == front + [p];
      RoomSnoc(front, p);
      RecordTakesRoom(KnownAfter(front), p);
      assert Room(ps[..j]) >= Room(front) + 11;
    }
  }

  lemma RecordRoomIs(known: set<seq<bytes>>, p: Planned, owner: Owner)
    requires if p.owner.AtQuestion? then owner.Pointer? else owner == Named(p.owner.name)
    ensures RecordRoom(known, p) == OwnerRoom(known, owner) + 10 + DataRoom(known + {p.OwnerLabels()}, p.rdata)
    ensures known + NamesIn(p) == known + {p.OwnerLabels()} + AllOf(FragmentsOf(p.rdata.Names()))
  {
  }

  lemma RecordTakesRoom(known: set<seq<bytes>>, p: Planned)
    ensures RecordRoom(known, p) >= 11
  {
  }

  /** The number of records from the front of the plan is the greatest that fits behind the questions. */
  ghost predicate Longest(start: nat, plan: seq<Planned>, n: nat) {
    n <= |plan| && start + Room(plan[..n]) <= MAX_REPLY &&
    (n < |plan| ==> start + Room(plan[..n + 1]) > MAX_REPLY)
  }

  /** The name that owns a planned record. */
  lemma OwnerIs(b: bytes, qs: seq<Question>, p: Planned, owner: Owner)
    requires AllNamed(b, qs) && p.IsLegal() && (p.owner.AtQuestion? ==> p.owner.question in qs)
    requires owner == if p.owner.AtQuestion? then Pointer(p.owner.question.offset) else Named(p.owner.name)
    ensures LegalRecord(b, owner, p.rdata) && OwnerName(b, owner) == p.OwnerLabels()
    ensures RecordOf(b, owner, p.rdata) == p.Says()
  {
    if p.owner.AtQuestion? {
      var k :| 0 <= k < |qs| && qs[k] == p.owner.question;
      assert NamedAt(b, qs[k]);
    }
  }

  lemma AllSaySnoc(ps: seq<Planned>, p: Planned)
    ensures AllSay(ps + [p]) == AllSay(ps) + [p.Says()]
  {
  }

  /** No longer front of the plan fits. */
  lemma LongestIsGreatest(start: nat, plan: seq<Planned>, n: nat, k: nat)
    requires Longest(start, plan, n) && k <= |plan|
    ensures start + Room(plan[..k]) <= MAX_REPLY <==> k <= n
  {
    if k <= n { RoomGrows(plan, k, n); } else { RoomGrows(plan, n + 1, k); }
  }

  function QuestionsRoom(qs: seq<Question>): nat {
    if qs == [] then 0 else QuestionsRoom(qs[..|qs| - 1]) + |QuestionOctets(qs[|qs| - 1].Asks())|
  }

  class Response {
    const reply: Reply
    ghost var questions: seq<Question>
    ghost var bodyStart: nat
    ghost var records: seq<Planned>

    constructor ()
      ensures fresh(reply) && reply.buffer == [] && reply.labels == [] && reply.hole == NO_HOLE
      ensures questions == [] && bodyStart == HEADER_SIZE && records == []
    {
      reply := new Reply();
      questions, bodyStart, records := [], HEADER_SIZE, [];
    }

    /** The buffer holds exactly the questions and records of the ghost lists, behind room for a header. */
    ghost predicate Framed()
      reads this, reply
    {
      HEADER_SIZE <= bodyStart <= |reply.buffer| <= MAX_REPLY &&
      bodyStart == HEADER_SIZE + QuestionsRoom(questions) && |reply.buffer| == bodyStart + Room(records) &&
      QuestionsAt(reply.buffer, HEADER_SIZE, AllAsk(questions), bodyStart) &&
      RecordsAt(reply.buffer, bodyStart, AllSay(records), |reply.buffer|)
    }

    /** More records may be stored: names can be looked up in the index and questions can be pointed at. */
    ghost predicate Ready()
      reads this, reply
      ensures Ready() ==> Framed()
    {
      Framed() && reply.Valid() && reply.hole == NO_HOLE && AllNamed(reply.buffer, questions) &&
      reply.Names() == KnownAfter(records)
    }

    /** The owner of a planned record is there. */
    ghost predicate KnowsOwner(owner: PlannedOwner)
      reads this
    {
      owner.AtQuestion? ==> owner.question in questions
    }

    /**
     * Writes a record; if the reply has become too long, takes it back. A record that stays says what
     * was planned; one that does not leaves no trace in the buffer.
     */
    method Store(p: Planned, n: uint16) returns (truncated: bool, n': uint16)
      requires Ready() && p.IsLegal() && KnowsOwner(p.owner) && n <= |records|
      modifies this`records, reply`buffer, reply`labels, reply`hole
      ensures Framed() && n' <= |records|
      ensures truncated <==> bodyStart + Room(old(records) + [p]) > MAX_REPLY
      ensures !truncated ==> Ready() && records == old(records) + [p] && n' == n + 1
      ensures truncated ==> reply.buffer == old(reply.buffer) && records == old(records) && n' == n
    {
      hide NameAt, NameEnd, RecordsAt, QuestionsAt, IndexOk, NamesOf, NameRoom, NamesRoom, Room, KnownAfter,
           QuestionsRoom, RecordRoom, NamesIn, DataRoom, OwnerRoom, AllOf, FragmentsOf;
      RecordsTakeRoom(reply.buffer, bodyStart, AllSay(records), |reply.buffer|);
      RoomSnoc(records, p);
      ghost var b := reply.buffer;
      var owner := if p.owner.AtQuestion? then Pointer(p.owner.question.offset) else Named(p.owner.name);
      RecordRoomIs(reply.Names(), p, owner);
      OwnerIs(b, questions, p, owner);
      hide AllNamed, AllAsk, AllSay, RecordAt, LegalOwner, OwnerName, RecordOf, Rdata.IsLegal;
      var answer := new AnswerBase(owner, p.rdata);
      answer.Write(reply);
      n' := n;
      assert |reply.buffer| == bodyStart + Room(records + [p]);
      if |reply.buffer| > MAX_REPLY {
        answer.Revert(reply);
        assert reply.buffer == b;
        truncated := true;
      } else {
        n' := n + 1;
        truncated := false;
        Stored(b, reply.buffer, bodyStart, AllAsk(questions), AllSay(records), p.Says());
        AllNamedStable(b, reply.buffer, questions);
        AllSaySnoc(records, p);
        records := records + [p];
      }
    }

    /** Room for the header of the reply. */
    method Begin()
      requires reply.buffer == [] && reply.labels == [] && reply.hole == NO_HOLE
      requires questions == [] && bodyStart == HEADER_SIZE && records == []
      modifies reply`buffer
      ensures Ready() && |reply.buffer| == HEADER_SIZE
    {
      reply.buffer := seq(HEADER_SIZE, _ => 0);
      NothingKnown();
    }

    /** Copies the octets of a question behind those before it. */
    method CopyQuestion(octets: bytes, ghost q: Question)
      requires Ready() && records == [] && q.offset == |reply.buffer| && Legal(q.labels)
      requires octets == QuestionOctets(q.Asks()) && |reply.buffer| + |octets| < MAX_REPLY
      modifies this`questions, this`bodyStart, reply`buffer
      ensures Ready() && questions == old(questions) + [q] && |reply.buffer| == |old(reply.buffer)| + |octets|
    {
      hide NameAt, NameEnd, IndexOk, QuestionsAt, QuestionOctets, NamesOf, KnownAfter, Room;
      NothingKnown();
      ghost var b := reply.buffer;
      reply.Append(octets);
      QuestionReads(b, q.Asks());
      QuestionsStable(b, reply.buffer, HEADER_SIZE, AllAsk(questions), bodyStart);
      QuestionsSnoc(reply.buffer, HEADER_SIZE, AllAsk(questions), |b|, q.Asks(), |reply.buffer|);
      AllNamedStable(b, reply.buffer, questions);
      assert AllAsk(questions + [q]) == AllAsk(questions) + [q.Asks()];
      assert (questions + [q])[..|questions|] == questions;
      questions := questions + [q];
      bodyStart := |reply.buffer|;
    }

    /** Store for the k-th record of a plan, when those before it are stored. */
    method StoreNth(ghost before: seq<Planned>, ghost plan: seq<Planned>, ghost k: nat, p: Planned, n: uint16)
      returns (truncated: bool, n': uint16)
      requires Ready() && n <= |records| && KnowsOwner(p.owner)
      requires AllLegal(plan) && k < |plan| && plan[k] == p && StoredAll(bodyStart, before, records, plan[..k], false)
      modifies this`records, reply`buffer, reply`labels, reply`hole
      ensures Framed() && n' == n + (|records| - |old(records)|) && n' <= |records|
      ensures !truncated ==>
                Ready() && |records| == |old(records)| + 1 &&
                StoredAll(bodyStart, before, records, plan[..k + 1], false)
      ensures truncated ==> records == old(records) && StoredAll(bodyStart, before, records, plan, true)
    {
      assert plan[k].IsLegal();
      truncated, n' := Store(p, n);
      StoredNext(bodyStart, before, old(records), records, plan, k, truncated);
    }

    /** for (ip : a) Store(RdataA{owner, ip}) */
    method StoreA(owner: PlannedOwner, data: ZoneData, n: uint16) returns (truncated: bool, n': uint16)
      requires Ready() && n <= |records| && AllLegal(PlanA(owner, data)) && KnowsOwner(owner)
      modifies this`records, reply`buffer, reply`labels, reply`hole
      ensures Framed() && (!truncated ==> Ready()) &&
              StoredAll(bodyStart, old(records), records, PlanA(owner, data), truncated)
      ensures n' == n + (|records| - |old(records)|)
    {
      hide NameAt, RecordsAt, QuestionsAt, IndexOk;
      truncated, n' := false, n;
      ghost var plan := PlanA(owner, data);
      if data.a.Some? {
        var ips := data.a.value;
        for k := 0 to |ips|
          invariant Ready() && StoredAll(bodyStart, old(records), records, plan[..k], false) && n' == n + k &&
                    |records| == |old(records)| + k
        {
          truncated, n' := StoreNth(old(records), plan, k, Planned(owner, A(ips[k])), n');
          if truncated {
            return;
          }
        }
        assert plan[..|ips|] == plan;
      }
    }

    /** for (ip : aaaa) Store(RdataAaaa{owner, ip}) */
    method StoreAaaa(owner: PlannedOwner, data: ZoneData, n: uint16) returns (truncated: bool, n': uint16)
      requires Ready() && n <= |records| && AllLegal(PlanAaaa(owner, data)) && KnowsOwner(owner)
      modifies this`records, reply`buffer, reply`labels, reply`hole
      ensures Framed() && (!truncated ==> Ready()) &&
              StoredAll(bodyStart, old(records), records, PlanAaaa(owner, data), truncated)
      ensures n' == n + (|records| - |old(records)|)
    {
      hide NameAt, RecordsAt, QuestionsAt, IndexOk;
      truncated, n' := false, n;
      ghost var plan := PlanAaaa(owner, data);
      if data.aaaa.Some? {
        var ips := data.aaaa.value;
        for k := 0 to |ips|
          invariant Ready() && StoredAll(bodyStart, old(records), records, plan[..k], false) && n' == n + k &&
                    |records| == |old(records)| + k
        {
          truncated, n' := StoreNth(old(records), plan, k, Planned(owner, Aaaa(ips[k])), n');
          if truncated {
            return;
          }
        }
        assert plan[..|ips|] == plan;
      }
    }
  }

  /** The octets of a question, appended, are read as that question. */
  lemma QuestionReads(b: bytes, a: Asked)
    requires HEADER_SIZE <= |b| && Legal(a.name)
    ensures var b' := b + QuestionOctets(a);
            ReadQuestion(b', |b|) == Some((a, |b'|)) && NameAt(b', NO_HOLE, |b|, |b|) == Some(a.name)
  {
    hide NameAt, NameEnd;
    var b' := b + QuestionOctets(a);
    var b1 := b + Encode(a.name) + [0];
    NameReads(b, a.name);
    assert b' == b1 + (U16(a.qtype) + U16(a.qclass));
    Frame(b1, NO_HOLE, b', NO_HOLE, |b|, |b|);
    FourOctets(b1, b', U16(a.qtype), U16(a.qclass));
    assert GetU16(b', |b1|) == a.qtype && GetU16(b', |b1| + 2) == a.qclass;
  }

  lemma NameReads(b: bytes, name: seq<bytes>)
    requires HEADER_SIZE <= |b| && Legal(name)
    ensures var b' := b + Encode(name) + [0];
            NameAt(b', NO_HOLE, |b|, |b|) == Some(name) && NameEnd(b', |b|) == |b'|
  {
    hide NameAt, NameEnd;
    assert name[..|name|] == name;
    assert b + Written(name, false, |name|, 0) == b + Encode(name) + [0];
    ReadLegal(b, NO_HOLE, name, false, |name|, 0);
  }

  lemma FourOctets(b: bytes, b': bytes, x: bytes, y: bytes)
    requires |x| == 2 && |y| == 2 && b' == b + (x + y)
    ensures b'[|b|] == x[0] && b'[|b| + 1] == x[1] && b'[|b| + 2] == y[0] && b'[|b| + 3] == y[1]
  {
  }

  /**
   * The planned records were stored behind `before`: all of them, or a proper part from the front such
   * that the next one did not fit.
   */
  ghost predicate StoredAll(start: nat, before: seq<Planned>, after: seq<Planned>, plan: seq<Planned>, truncated: bool)
  {
    before <= after &&
    if truncated then after < before + plan && start + Room((before + plan)[..|after| + 1]) > MAX_REPLY
    else after == before + plan
  }

  lemma StoredNext(start: nat, before: seq<Planned>, now: seq<Planned>, after: seq<Planned>, plan: seq<Planned>, k: nat,
                   truncated: bool)
    requires k < |plan| && StoredAll(start, before, now, plan[..k], false)
    requires after == if truncated then now else now + [plan[k]]
    requires truncated ==> start + Room(now + [plan[k]]) > MAX_REPLY
    ensures if truncated then StoredAll(start, before, after, plan, true)
            else StoredAll(start, before, after, plan[..k + 1], false)
  {
    hide Room;
    assert plan[..k + 1] == plan[..k] + [plan[k]];
    assert now + [plan[k]] == (before + plan)[..|now| + 1];
    if truncated {
      assert (before + plan)[..|after|] == after;
    }
  }

  lemma ConcatAssoc<T>(a: seq<T>, x: seq<T>, y: seq<T>)
    ensures a + (x + y) == (a + x) + y
  {
  }

  lemma StoredThen(start: nat, a: seq<Planned>, b: seq<Planned>, c: seq<Planned>, p1: seq<Planned>, p2: seq<Planned>,
                   truncated: bool)
    requires StoredAll(start, a, b, p1, false) && StoredAll(start, b, c, p2, truncated)
    ensures StoredAll(start, a, c, p1 + p2, truncated)
  {
    hide Room;
    ConcatAssoc(a, p1, p2);
  }

  lemma StoredStop(start: nat, a: seq<Planned>, b: seq<Planned>, p1: seq<Planned>, p2: seq<Planned>)
    requires StoredAll(start, a, b, p1, true)
    ensures StoredAll(start, a, b, p1 + p2, true)
  {
    hide Room;
    ConcatAssoc(a, p1, p2);
    assert (a + p1 + p2)[..|b| + 1] == (a + p1)[..|b| + 1];
  }

  lemma StoredNothing(start: nat, a: seq<Planned>)
    ensures StoredAll(start, a, a, [], false)
  {
    assert a + [] == a;
  }

  /** One more record behind the others. */
  lemma Stored(b: bytes, b': bytes, start: nat, qs: seq<Asked>, rs: seq<Record>, r: Record)
    requires b <= b' && HEADER_SIZE <= start
    requires QuestionsAt(b, HEADER_SIZE, qs, start) && RecordsAt(b, start, rs, |b|) && RecordAt(b', |b|, r, |b'|)
    ensures QuestionsAt(b', HEADER_SIZE, qs, start) && RecordsAt(b', start, rs + [r], |b'|)
  {
    hide NameAt, NameEnd, RecordsAt, QuestionsAt;
    QuestionsStable(b, b', HEADER_SIZE, qs, start);
    RecordsStable(b, b', start, rs, |b|);
    RecordsSnoc(b', start, rs, |b|, r, |b'|);
  }

  lemma StoredShort(start: nat, a: seq<Planned>, b: seq<Planned>, p: seq<Planned>, whole: seq<Planned>)
    requires StoredAll(start, a, b, p, true) && p <= whole
    ensures StoredAll(start, a, b, whole, true)
  {
    StoredStop(start, a, b, p, whole[|p|..]);
    assert p + whole[|p|..] == whole;
  }

  lemma StoredOne(start: nat, before: seq<Planned>, after: seq<Planned>, p: Planned, truncated: bool)
    requires after == if truncated then before else before + [p]
    requires truncated ==> start + Room(before + [p]) > MAX_REPLY
    ensures StoredAll(start, before, after, [p], truncated)
  {
    hide Room;
    if truncated { assert (before + [p])[..|before| + 1] == before + [p]; }
  }
}
