/**
 * Replies by their octets (section 4.1.1 of RFC 1035): which number stands where in the reply to which
 * query, without a word on how the reply comes about.
 */
module ReplyOctets {
  import opened Bytes
  import opened Compression
  import opened DomainNames
  import opened MessageHeaders
  import opened Messages
  import opened Zones
  import opened LabelHeaders
  import opened Answers
  import opened DnsPlans
  import opened Responses
  import opened DnsDaemons
  import opened RecordOctets
  import opened AnswersByType
  import opened PlannedSections

  // ---- The header ----

  /** Only a header: that of the query with QR on, this reply code, and no counts. */
  predicate ErrorOctets(reply: Option<bytes>, mem: bytes, code: nat)
    requires 12 <= |mem|
  {
    reply.Some? && |reply.value| == 12 &&
    reply.value[0] == mem[0] && reply.value[1] == mem[1] && reply.value[2] == 128 + mem[2] % 128 &&
    reply.value[3] == mem[3] / 16 * 16 + code && forall i :: 4 <= i < 12 ==> reply.value[i] == 0
  }

  /** QR on, AA and TC as given, RA off; the operation, RD, and the seven low bits as in the query. */
  predicate FlagOctets(out: bytes, mem: bytes, aa: bool, tc: bool)
    requires 12 <= |mem| && 12 <= |out|
  {
    out[0] == mem[0] && out[1] == mem[1] && out[3] == mem[3] % 128 &&
    out[2] == 128 + mem[2] % 128 / 8 * 8 + (if aa then 4 else 0) + (if tc then 2 else 0) + mem[2] % 2
  }

  lemma TwoDigits(b: bytes, i: nat, c: bytes, j: nat)
    requires i + 2 <= |b| && j + 2 <= |c| && GetU16(b, i) == GetU16(c, j)
    ensures b[i] == c[j] && b[i + 1] == c[j + 1]
  {
  }

  lemma WithBitIs(hi: byte, lo: byte, m: nat, on: bool)
    requires m > 0 && (hi as int * 256 + lo) / (256 * m) == hi / m
    ensures WithBit(hi as int * 256 + lo, 256 * m, on) == (hi - hi / m % 2 * m + (if on then m else 0)) * 256 + lo
  {
    var bit := hi / m % 2;
    assert bit * (256 * m) == bit * m * 256;
  }

  lemma HighBit(hi: byte, lo: byte, m: nat, on: bool)
    requires m == 128 || m == 4 || m == 2
    ensures WithBit(hi as int * 256 + lo, 256 * m, on) == (hi - hi / m % 2 * m + (if on then m else 0)) * 256 + lo
  {
    hide WithBit;
    var w := hi as int * 256 + lo;
    assert w / 0x8000 == hi / 128;
    assert w / 0x400 == hi / 4;
    assert w / 0x200 == hi / 2;
    WithBitIs(hi, lo, m, on);
  }

  lemma LowBit(hi: byte, lo: byte)
    ensures WithBit(hi as int * 256 + lo, 0x80, false) == hi as int * 256 + lo % 128
  {
    var w := hi as int * 256 + lo;
    assert w / 0x80 == hi as int * 2 + lo / 128;
  }

  /** The word of two octets. */
  function Pair(hi: byte, lo: byte): uint16 {
    hi as int * 256 + lo
  }

  lemma QrOctet(hi: byte, lo: byte)
    ensures FlagsOf(Pair(128 + hi % 128, lo)) == FlagsOf(Pair(hi, lo)).(qr := true)
  {
    hide FlagsOf, Word, WithBit;
    BitIsQr(Pair(hi, lo), true);
    HighBit(hi, lo, 128, true);
    FlagsOfWord(FlagsOf(Pair(hi, lo)).(qr := true));
  }

  lemma AaOctet(hi: byte, lo: byte, on: bool)
    ensures FlagsOf(Pair(hi - hi / 4 % 2 * 4 + if on then 4 else 0, lo)) == FlagsOf(Pair(hi, lo)).(aa := on)
  {
    hide FlagsOf, Word, WithBit;
    BitIsAa(Pair(hi, lo), on);
    HighBit(hi, lo, 4, on);
    FlagsOfWord(FlagsOf(Pair(hi, lo)).(aa := on));
  }

  lemma TcOctet(hi: byte, lo: byte, on: bool)
    ensures FlagsOf(Pair(hi - hi / 2 % 2 * 2 + if on then 2 else 0, lo)) == FlagsOf(Pair(hi, lo)).(tc := on)
  {
    hide FlagsOf, Word, WithBit;
    BitIsTc(Pair(hi, lo), on);
    HighBit(hi, lo, 2, on);
    FlagsOfWord(FlagsOf(Pair(hi, lo)).(tc := on));
  }

  lemma RaOctet(hi: byte, lo: byte)
    ensures FlagsOf(Pair(hi, lo % 128)) == FlagsOf(Pair(hi, lo)).(ra := false)
  {
    hide FlagsOf, Word, WithBit;
    BitIsRa(Pair(hi, lo), false);
    LowBit(hi, lo);
    FlagsOfWord(FlagsOf(Pair(hi, lo)).(ra := false));
  }

  lemma Sixteenth(hi: byte, lo: byte, code: nat)
    requires code < 16
    ensures WithCode(Pair(hi, lo), code) == Pair(hi, lo / 16 * 16 + code)
  {
    assert Pair(hi, lo) == (hi as int * 16 + lo / 16) * 16 + lo % 16;
  }

  lemma CodeOctet(hi: byte, lo: byte, code: nat)
    requires code < 16
    ensures FlagsOf(Pair(hi, lo / 16 * 16 + code)) == FlagsOf(Pair(hi, lo)).(rcode := code)
  {
    hide FlagsOf, Word, WithCode;
    CodeIsField(Pair(hi, lo), code);
    Sixteenth(hi, lo, code);
    FlagsOfWord(FlagsOf(Pair(hi, lo)).(rcode := code));
  }

  /** A word is known by its fields. */
  lemma SameFields(v: uint16, w: uint16)
    requires FlagsOf(v) == FlagsOf(w)
    ensures v == w
  {
    WordOfFlags(v);
    WordOfFlags(w);
  }

  lemma PairOf(b: bytes, i: nat)
    requires i + 2 <= |b|
    ensures GetU16(b, i) == Pair(b[i], b[i + 1])
  {
  }

  lemma ErrorFlags(out: bytes, mem: bytes, code: nat)
    requires 12 <= |mem| && 12 <= |out| && code < 16
    requires FlagsOf(GetU16(out, 2)) == FlagsOf(GetU16(mem, 2)).(qr := true, rcode := code)
    ensures out[2] == 128 + mem[2] % 128 && out[3] == mem[3] / 16 * 16 + code
  {
    hide FlagsOf, GetU16;
    PairOf(mem, 2);
    PairOf(out, 2);
    QrOctet(mem[2], mem[3]);
    CodeOctet(128 + mem[2] % 128, mem[3], code);
    SameFields(GetU16(out, 2), Pair(128 + mem[2] % 128, mem[3] / 16 * 16 + code));
  }

  lemma Octave(n: nat, a: nat, t: nat)
    requires n == 8 * a + t && t < 8
    ensures n / 8 == a && n % 8 == t
  {
  }

  lemma Sixteen(n: nat, a: nat, b: nat)
    requires n == 16 * a + b && b < 16
    ensures n % 16 == b
  {
  }

  lemma EightOctaves(hi: byte)
    ensures 128 + hi % 128 == 8 * (16 + hi / 8 % 16) + hi % 8 && hi % 128 / 8 == hi / 8 % 16
  {
    var a: nat, r: nat := hi / 128, hi % 128;
    var b: nat, t: nat := r / 8, r % 8;
    Octave(hi, 16 * a + b, t);
    Sixteen(hi / 8, a, b);
  }

  lemma ClearTwo(k: nat, t: nat, aa: bool, tc: bool)
    requires t < 8
    ensures var h1 := 8 * k + t;
            var h2 := h1 - h1 / 4 % 2 * 4 + if aa then 4 else 0;
            h2 == 8 * k + t % 4 + (if aa then 4 else 0) &&
            h2 - h2 / 2 % 2 * 2 + (if tc then 2 else 0) == 8 * k + (if aa then 4 else 0) + (if tc then 2 else 0) + t % 2
  {
    assert (8 * k + t) / 4 == 2 * k + t / 4;
    var h2 := 8 * k + t % 4 + if aa then 4 else 0;
    assert h2 / 2 == 4 * k + (t % 4 + if aa then 4 else 0) / 2;
  }

  /** The octet of the reply in place of the third one of the query, flag by flag. */
  function ReplyOctet(hi: byte, aa: bool, tc: bool): byte {
    128 + hi % 128 / 8 * 8 + (if aa then 4 else 0) + (if tc then 2 else 0) + hi % 2
  }

  lemma LastBit(hi: byte)
    ensures hi % 8 % 2 == hi % 2
  {
    assert hi == 2 * (hi / 8 * 4 + hi % 8 / 2) + hi % 8 % 2;
  }

  lemma ThreeBits(hi: byte, h1: byte, aa: bool, tc: bool)
    requires h1 == 128 + hi % 128
    ensures var h2 := h1 - h1 / 4 % 2 * 4 + if aa then 4 else 0;
            h2 < 256 && h2 - h2 / 2 % 2 * 2 + (if tc then 2 else 0) == ReplyOctet(hi, aa, tc)
  {
    var k: nat, t: nat, eights: nat, u: nat := 16 + hi / 8 % 16, hi % 8, hi % 128 / 8, hi % 2;
    EightOctaves(hi);
    LastBit(hi);
    assert ReplyOctet(hi, aa, tc) == 8 * k + (if aa then 4 else 0) + (if tc then 2 else 0) + t % 2;
    hide ReplyOctet;
    assert h1 == 8 * k + t;
    ClearTwo(k, t, aa, tc);
  }

  lemma FourFlags(hi: byte, lo: byte, aa: bool, tc: bool)
    ensures FlagsOf(Pair(ReplyOctet(hi, aa, tc), lo % 128)) ==
            FlagsOf(Pair(hi, lo)).(qr := true, aa := aa, tc := tc, ra := false)
  {
    hide FlagsOf, Pair;
    var h1: byte := 128 + hi % 128;
    ThreeBits(hi, h1, aa, tc);
    var h2: byte := h1 - h1 / 4 % 2 * 4 + if aa then 4 else 0;
    QrOctet(hi, lo);
    AaOctet(h1, lo, aa);
    TcOctet(h2, lo, tc);
    RaOctet(ReplyOctet(hi, aa, tc), lo);
  }

  lemma AnswerFlags(out: bytes, mem: bytes, aa: bool, tc: bool)
    requires 12 <= |mem| && 12 <= |out|
    requires FlagsOf(GetU16(out, 2)) == FlagsOf(GetU16(mem, 2)).(qr := true, aa := aa, tc := tc, ra := false)
    ensures out[3] == mem[3] % 128
    ensures out[2] == 128 + mem[2] % 128 / 8 * 8 + (if aa then 4 else 0) + (if tc then 2 else 0) + mem[2] % 2
  {
    hide FlagsOf, GetU16;
    PairOf(mem, 2);
    PairOf(out, 2);
    FourFlags(mem[2], mem[3], aa, tc);
    SameFields(GetU16(out, 2), Pair(ReplyOctet(mem[2], aa, tc), mem[3] % 128));
    SamePair(out[2], out[3], ReplyOctet(mem[2], aa, tc), mem[3] % 128);
  }

  lemma SamePair(a: byte, b: byte, c: byte, d: byte)
    requires Pair(a, b) == Pair(c, d)
    ensures a == c && b == d
  {
  }

  lemma ReadHeaderIs(b: bytes)
    requires 12 <= |b| && ReadMessage(b).Some?
    ensures ReadMessage(b).value.header == ReadHeader(b)
  {
    hide ReadHeader;
  }

  lemma ZeroWord(b: bytes, i: nat)
    requires i + 2 <= |b| && GetU16(b, i) == 0
    ensures b[i] == 0 && b[i + 1] == 0
  {
  }

  lemma ErrorIs(out: bytes, mem: bytes, code: Rcode)
    requires 12 <= |mem| && IsError(out, ReadHeader(mem), code)
    ensures ErrorOctets(Some(out), mem, code.Code())
  {
    hide ReadMessage, GetU16, FlagsOf;
    assert |out| == 12;
    ReadHeaderIs(out);
    TwoDigits(out, 0, mem, 0);
    ErrorFlags(out, mem, code.Code());
    ZeroWord(out, 4);
    ZeroWord(out, 6);
    ZeroWord(out, 8);
    ZeroWord(out, 10);
  }

  // ---- The counts ----

  lemma {:induction false} QuestionCount(b: bytes, pos: nat, n: nat)
    requires Messages.ReadQuestions(b, pos, n).Some?
    ensures |Messages.ReadQuestions(b, pos, n).value.0| == n
    decreases n
  {
    hide ReadQuestion;
    if n > 0 { QuestionCount(b, ReadQuestion(b, pos).value.1, n - 1); }
  }

  lemma {:induction false} FrameCount(b: bytes, pos: nat, n: nat)
    requires ReadFrames(b, pos, n).Some?
    ensures |ReadFrames(b, pos, n).value.0| == n
    decreases n
  {
    hide ReadFrame;
    if n > 0 { FrameCount(b, ReadFrame(b, pos).value.next, n - 1); }
  }

  lemma SectionCounts(b: bytes, pos: nat, h: Header)
    requires ReadSections(b, pos, h).Some?
    ensures var s := ReadSections(b, pos, h).value;
            |s.answers| == h.ancount && |s.authority| == h.nscount && |s.additional| == h.arcount
  {
    hide ReadFrames;
    FrameCount(b, pos, h.ancount);
    var p2 := ReadFrames(b, pos, h.ancount).value.1;
    FrameCount(b, p2, h.nscount);
    FrameCount(b, ReadFrames(b, p2, h.nscount).value.1, h.arcount);
  }

  /** The header of a message announces as many questions and records as a reader finds. */
  lemma Counts(b: bytes)
    requires 12 <= |b| && ReadMessage(b).Some?
    ensures var m := ReadMessage(b).value;
            Short(b, 4) == |m.questions| && Short(b, 6) == |m.sections.answers| &&
            Short(b, 8) == |m.sections.authority| && Short(b, 10) == |m.sections.additional|
  {
    hide ReadSections, Messages.ReadQuestions, FlagsOf;
    var h := ReadHeader(b);
    QuestionCount(b, 12, h.qdcount);
    SectionCounts(b, Messages.ReadQuestions(b, 12, h.qdcount).value.1, h);
  }

  // ---- Answers ----

  /**
   * The reply holds these records of the plan: fronts of the three sections, which a reader finds and the
   * header counts; TC is on just when something of the plan is missing, and AA when the plan has authority.
   */
  ghost predicate Carries(out: bytes, mem: bytes, n: nat, plan: Plan, an: seq<Planned>, ns: seq<Planned>,
                          ar: seq<Planned>)
    requires 12 <= |mem|
  {
    12 <= |out| <= 512 && an <= plan.answers && ns <= plan.authority && ar <= plan.additional &&
    FlagOctets(out, mem, plan.authoritative,
               |an| + |ns| + |ar| < |plan.answers| + |plan.authority| + |plan.additional|) &&
    Short(out, 4) == n && Short(out, 6) == |an| && Short(out, 8) == |ns| && Short(out, 10) == |ar| &&
    ReadMessage(out).Some? && SectionsHold(out, ReadMessage(out).value.sections, AllSay(an), AllSay(ns), AllSay(ar))
  }

  lemma DeliversIs(out: bytes, mem: bytes, qs: seq<Question>, plan: Plan, an: seq<Planned>, ns: seq<Planned>,
                   ar: seq<Planned>, truncated: bool)
    requires 12 <= |mem| && Delivers(out, ReadHeader(mem), qs, plan, an, ns, ar, truncated)
    ensures Carries(out, mem, |qs|, plan, an, ns, ar)
  {
    hide Room, Longest, QuestionsRoom, Messages.ReadQuestions, ReadSections, FlagsOf, GetU16, AllSay, AllAsk, Holds;
    assert |out| >= 12;
    ReadHeaderIs(out);
    Counts(out);
    TwoDigits(out, 0, mem, 0);
    AnswerFlags(out, mem, plan.authoritative, truncated);
    assert |AllAsk(qs)| == |qs| by { AsManyAsked(qs); }
    AsManySaid(an);
    AsManySaid(ns);
    AsManySaid(ar);
  }

  lemma AsManyAsked(qs: seq<Question>)
    ensures |AllAsk(qs)| == |qs|
  {
  }

  lemma AsManySaid(ps: seq<Planned>)
    ensures |AllSay(ps)| == |ps|
  {
  }

  // ---- From query to reply ----

  /** The reply carries what is planned for n questions like this one. */
  ghost predicate Delivered(mgr: ZoneMgr, mem: bytes, q: Question, n: nat, reply: Option<bytes>)
    requires 12 <= |mem|
  {
    mgr.WholePlan(Copies(q, n)).Ok? && reply.Some? &&
    exists an, ns, ar :: Carries(reply.value, mem, n, mgr.WholePlan(Copies(q, n)).value, an, ns, ar)
  }

  /**
   * What becomes of n questions like this one: no reply or code 3 where there is no zone for it, code 2 where
   * an SOA record is missing, and else the plan for them.
   */
  ghost predicate QuestionNumbers(mgr: ZoneMgr, mem: bytes, q: Question, n: nat, reply: Option<bytes>)
    requires 12 <= |mem|
  {
    var found := mgr.lookup(q.labels);
    if found.zone.None? then if found.authority then ErrorOctets(reply, mem, 3) else reply == None
    else if q.qtype == 6 && NoSoa(found.zone.value) then ErrorOctets(reply, mem, 2)
    else Delivered(mgr, mem, q, n, reply)
  }

  /** The reply to a datagram, octet by octet where it is an error. */
  ghost predicate Numbers(mgr: ZoneMgr, mem: bytes, queryLen: nat, reply: Option<bytes>)
    requires queryLen < |mem|
  {
    if queryLen < 12 then reply == None
    else if mem[2] >= 128 then ErrorOctets(reply, mem, 1)
    else if mem[2] >= 8 then ErrorOctets(reply, mem, 4)
    else
      var n := Short(mem, 4);
      if n == 0 then
        reply.Some? && 12 <= |reply.value| && FlagOctets(reply.value, mem, true, false) &&
        forall i :: 4 <= i < 12 ==> reply.value[i] == 0
      else if queryLen == 12 then ErrorOctets(reply, mem, 1)
      else
        match QuestionAt(mem, 12, queryLen - 12, [], 12)
        case Err(why) => ErrorOctets(reply, mem, if why == NoLabels || why == IllegalLabel then 1 else 2)
        case Ok(p) =>
          if p.question.qclass != 1 then ErrorOctets(reply, mem, 5)
          else if 12 + n * p.question.GetSize() >= 512 then ErrorOctets(reply, mem, 1)
          else QuestionNumbers(mgr, mem, p.question, n, reply)
  }

  /** QR is the first bit of the third octet; the operation is in the four bits behind it. */
  lemma ThirdOctet(mem: bytes)
    requires 12 <= |mem|
    ensures ReadHeader(mem).flags.qr <==> mem[2] >= 128
    ensures mem[2] < 128 ==> (ReadHeader(mem).flags.opcode == 0 <==> mem[2] < 8)
    ensures ReadHeader(mem).qdcount == Short(mem, 4)
  {
    var hi, lo: int := mem[2], mem[3];
    var w := GetU16(mem, 2);
    assert w == hi * 256 + lo;
    assert w / 0x8000 == hi / 128;
    assert w / 0x800 == hi / 8;
  }

  lemma SameProblem(mgr: ZoneMgr, q: Question, q': Question)
    requires q' == q.(offset := q'.offset) && mgr.PlanQuestion(q).Err?
    ensures mgr.PlanQuestion(q') == mgr.PlanQuestion(q)
  {
  }

  /** Of questions that are copies of one, the first decides whether they are answered. */
  lemma FirstDecides(mgr: ZoneMgr, q: Question, n: nat)
    requires n > 0
    ensures var one, all := mgr.PlanQuestion(q), mgr.PlanQuestions(Copies(q, n));
            if one.Err? then all == Err(one.error) else all.Ok?
  {
    var qs := Copies(q, n);
    assert Alike(qs) && qs[0] == q.(offset := qs[0].offset);
    hide Copies;
    AlikePlan(mgr, q, qs[0]);
    if mgr.PlanQuestion(q).Err? {
      SameProblem(mgr, q, qs[0]);
      hide ZoneMgr.PlanQuestion;
      assert mgr.PlanQuestions([]).Ok? && qs[..1][..0] == [] && qs[..1][0] == qs[0];
      assert mgr.PlanQuestions(qs[..1]) == Err(mgr.PlanQuestion(q).error);
      PlanFails(mgr, qs, 1);
    } else {
      hide ZoneMgr.PlanQuestion;
      AlikeOk(mgr, qs, 0);
    }
  }

  lemma QuestionByNumber(mgr: ZoneMgr, mem: bytes, queryLen: nat, q: Question, n: nat, reply: Option<bytes>)
    requires 12 <= queryLen < |mem| && n > 0 && Replies(mgr, mem, queryLen, reply)
    requires Judge(mgr, mem, queryLen) ==
             match mgr.WholePlan(Copies(q, n))
             case Err(e) => FailsWith(e)
             case Ok(plan) => Verdict.Answers(Copies(q, n), plan)
    ensures QuestionNumbers(mgr, mem, q, n, reply)
  {
    FirstDecides(mgr, q, n);
    QuestionIs(mgr, q);
    hide ZoneMgr.PlanQuestion, Judge, Delivers, IsError, ReadHeader, Answered, AnswersByType.AuthorityIs, ServersAre,
         Ancestor, Nearest, NoSoa, Carries, ErrorOctets, Copies;
    var found := mgr.lookup(q.labels);
    if found.zone.None? {
      if found.authority { ErrorIs(reply.value, mem, NAME_ERROR); }
    } else if q.qtype == 6 && NoSoa(found.zone.value) {
      ErrorIs(reply.value, mem, SERVER_FAILURE);
    } else {
      var qs, plan := Copies(q, n), mgr.WholePlan(Copies(q, n)).value;
      var an, ns, ar, truncated :| Delivers(reply.value, ReadHeader(mem), qs, plan, an, ns, ar, truncated);
      DeliversIs(reply.value, mem, qs, plan, an, ns, ar, truncated);
      assert |qs| == n by { ManyCopies(q, n); }
    }
  }

  lemma ManyCopies(q: Question, n: nat)
    ensures |Copies(q, n)| == n
  {
  }

  /** Whatever the server replies to whatever datagram, these are the numbers. */
  lemma RepliesByNumber(mgr: ZoneMgr, mem: bytes, queryLen: nat, reply: Option<bytes>)
    requires queryLen < |mem| && Replies(mgr, mem, queryLen, reply)
    ensures Numbers(mgr, mem, queryLen, reply)
  {
    if queryLen >= 12 {
      ThirdOctet(mem);
      hide Delivers, IsError, ReadHeader, QuestionAt, Carries, ErrorOctets, Copies, ZoneMgr.WholePlan, QuestionNumbers;
      var n := Short(mem, 4);
      if mem[2] >= 128 {
        ErrorIs(reply.value, mem, FORMAT_ERROR);
      } else if mem[2] >= 8 {
        ErrorIs(reply.value, mem, NOT_IMPLEMENTED);
      } else if n == 0 {
        NothingAsked(mgr, mem, queryLen, reply);
      } else if queryLen == 12 {
        ErrorIs(reply.value, mem, FORMAT_ERROR);
      } else {
        SomethingAsked(mgr, mem, queryLen, reply);
      }
    }
  }

  lemma NothingAsked(mgr: ZoneMgr, mem: bytes, queryLen: nat, reply: Option<bytes>)
    requires 12 <= queryLen < |mem| && mem[2] < 8 && Short(mem, 4) == 0 && Replies(mgr, mem, queryLen, reply)
    ensures Numbers(mgr, mem, queryLen, reply)
  {
    ThirdOctet(mem);
    hide Delivers, IsError, ReadHeader, Carries;
    var plan := mgr.WholePlan([]).value;
    assert Judge(mgr, mem, queryLen) == Verdict.Answers([], plan);
    var an, ns, ar, truncated :| Delivers(reply.value, ReadHeader(mem), [], plan, an, ns, ar, truncated);
    DeliversIs(reply.value, mem, [], plan, an, ns, ar, truncated);
    EmptyPlan(mgr);
    NothingCarried(reply.value, mem, plan, an, ns, ar);
  }

  lemma EmptyPlan(mgr: ZoneMgr)
    ensures mgr.WholePlan([]) == Ok(Plan([], [], [], true))
  {
  }

  lemma NothingCarried(out: bytes, mem: bytes, plan: Plan, an: seq<Planned>, ns: seq<Planned>, ar: seq<Planned>)
    requires 12 <= |mem| && plan == Plan([], [], [], true) && Carries(out, mem, 0, plan, an, ns, ar)
    ensures 12 <= |out| && FlagOctets(out, mem, true, false) && forall i :: 4 <= i < 12 ==> out[i] == 0
  {
    hide ReadMessage, SectionsHold, FlagOctets;
  }

  /** What reading the questions comes to. */
  lemma QuestionsRead(mem: bytes, queryLen: nat, n: nat)
    requires 12 < queryLen < |mem| && n > 0
    ensures QuestionsOf(mem, queryLen, n) ==
            match QuestionAt(mem, 12, queryLen - 12, [], 12)
            case Err(why) => Err(BadName(why))
            case Ok(p) =>
              if p.question.qclass != 1 then Err(RefusedQuery)
              else if 12 + n * p.question.GetSize() >= 512 then Err(InvalidQuery)
              else Ok(Copies(p.question, n))
  {
    hide QuestionAt, Copies;
  }

  /** The verdict on a query with questions. */
  lemma Judged(mgr: ZoneMgr, mem: bytes, queryLen: nat)
    requires 12 < queryLen < |mem| && mem[2] < 8 && Short(mem, 4) > 0
    ensures var n, v := Short(mem, 4), Judge(mgr, mem, queryLen);
            match QuestionAt(mem, 12, queryLen - 12, [], 12)
            case Err(why) => v == FailsWith(BadName(why))
            case Ok(p) =>
              if p.question.qclass != 1 then v == FailsWith(RefusedQuery)
              else if 12 + n * p.question.GetSize() >= 512 then v == FailsWith(InvalidQuery)
              else v == (match mgr.WholePlan(Copies(p.question, n))
                         case Err(e) => FailsWith(e)
                         case Ok(plan) => Verdict.Answers(Copies(p.question, n), plan))
  {
    hide ReadHeader, QuestionAt, Copies, ZoneMgr.WholePlan, FailsWith, QuestionsOf, Short;
    ThirdOctet(mem);
    QuestionsRead(mem, queryLen, Short(mem, 4));
  }

  lemma FailsByNumber(mgr: ZoneMgr, mem: bytes, queryLen: nat, e: Problem, reply: Option<bytes>)
    requires 12 <= queryLen < |mem| && Replies(mgr, mem, queryLen, reply) && Judge(mgr, mem, queryLen) == FailsWith(e)
    ensures e.BadName? ==> ErrorOctets(reply, mem, if e.why == NoLabels || e.why == IllegalLabel then 1 else 2)
    ensures e.InvalidQuery? ==> ErrorOctets(reply, mem, 1)
    ensures e.RefusedQuery? ==> ErrorOctets(reply, mem, 5)
  {
    hide Judge, IsError, Delivers, ReadHeader, ErrorOctets;
    if e.Code().Some? { ErrorIs(reply.value, mem, e.Code().value); }
  }

  lemma SomethingAsked(mgr: ZoneMgr, mem: bytes, queryLen: nat, reply: Option<bytes>)
    requires 12 < queryLen < |mem| && mem[2] < 8 && Short(mem, 4) > 0 && Replies(mgr, mem, queryLen, reply)
    ensures Numbers(mgr, mem, queryLen, reply)
  {
    Judged(mgr, mem, queryLen);
    hide Judge, Replies, QuestionAt, ErrorOctets, Copies, ZoneMgr.WholePlan, QuestionNumbers, FailsWith;
    var n := Short(mem, 4);
    match QuestionAt(mem, 12, queryLen - 12, [], 12) {
      case Err(why) => FailsByNumber(mgr, mem, queryLen, BadName(why), reply);
      case Ok(p) =>
        if p.question.qclass != 1 {
          FailsByNumber(mgr, mem, queryLen, RefusedQuery, reply);
        } else if 12 + n * p.question.GetSize() >= 512 {
          FailsByNumber(mgr, mem, queryLen, InvalidQuery, reply);
        } else {
          QuestionByNumber(mgr, mem, queryLen, p.question, n, reply);
        }
    }
  }

  lemma RefusedName(mem: bytes, queryLen: nat, why: LabelHeaders.Refusal)
    requires 12 < queryLen < |mem| && LabelHeaders.Inside([], queryLen) && Run(mem, queryLen, Start(12, [])) == Err(why)
    ensures QuestionAt(mem, 12, queryLen - 12, [], 12) == Err(why)
  {
    hide Run;
  }

  /** A name that ends so close to the end of the datagram that type and class do not fit. */
  lemma ShortOfOctets(mem: bytes, queryLen: nat, rest: seq<Span>, q: nat)
    requires 12 < queryLen < |mem| && LabelHeaders.Inside(rest, queryLen) && Chain(mem, 12, rest, q) && q <= queryLen
    requires mem[q] == 0 && q + 5 > queryLen
    requires LabelHeaders.Inside([], queryLen) && Run(mem, queryLen, Start(12, [])).Ok?
    ensures QuestionAt(mem, 12, queryLen - 12, [], 12) == Err(QuestionUnderflow)
  {
    RunAlongChain(mem, queryLen, Start(12, []), rest, q);
    hide Run, Chain, AllText;
  }

  lemma RefusedByNumber(mgr: ZoneMgr, mem: bytes, queryLen: nat, why: LabelHeaders.Refusal, reply: Option<bytes>)
    requires 12 < queryLen < |mem| && mem[2] < 8 && Short(mem, 4) > 0 && Replies(mgr, mem, queryLen, reply)
    requires QuestionAt(mem, 12, queryLen - 12, [], 12) == Err(why)
    ensures ErrorOctets(reply, mem, if why == NoLabels || why == IllegalLabel then 1 else 2)
  {
    Judged(mgr, mem, queryLen);
    hide Run, QuestionAt, Judge, Replies, ErrorOctets;
    FailsByNumber(mgr, mem, queryLen, BadName(why), reply);
  }

  /** A label with a character that is not allowed. */
  lemma OddCharacter(mem: bytes, from: nat, end: nat)
    requires from < end <= |mem| && exists i :: from <= i < end && !NameChar(mem[i])
    ensures !NameText(mem[from..end])
  {
    hide NameChar;
    var i :| from <= i < end && !NameChar(mem[i]);
    assert mem[from..end][i - from] == mem[i];
  }

  /**
   * Where the name of the first question goes wrong behind allowed labels: code 1 for a name without labels
   * and for a label with a character that is not allowed, code 2 for whatever does not fit.
   */
  lemma BadNames(mgr: ZoneMgr, mem: bytes, queryLen: nat, rest: seq<Span>, q: nat, reply: Option<bytes>)
    requires 12 < queryLen < |mem| && mem[2] < 8 && Short(mem, 4) > 0 && Replies(mgr, mem, queryLen, reply)
    requires q <= queryLen && LabelHeaders.Inside(rest, queryLen) && Chain(mem, 12, rest, q) && AllText(mem, rest)
    requires q - 12 - |rest| <= 255
    ensures mem[q] == 0 && rest == [] ==> ErrorOctets(reply, mem, 1)
    ensures var label_ := q + 1 + mem[q];
            0 < mem[q] < 64 && label_ <= queryLen && q - 12 - |rest| + mem[q] <= 255 ==>
              (exists i :: q < i < label_ && !NameChar(mem[i])) ==> ErrorOctets(reply, mem, 1)
    ensures 0 < mem[q] < 64 && (q + 1 + mem[q] > queryLen || q - 12 - |rest| + mem[q] > 255) ==>
              ErrorOctets(reply, mem, 2)
    ensures mem[q] == 0 && rest != [] && (q - 12 - |rest| == 255 || q + 5 > queryLen) ==> ErrorOctets(reply, mem, 2)
    ensures mem[q] >= 64 ==> ErrorOctets(reply, mem, 2)
  {
    hide Replies, AllText, Run, NameChar, NameText, ErrorOctets, Short, NameAt, OctetsAt;
    assert rest == [] ==> q == 12;
    hide Chain, LabelHeaders.Inside;
    NoSpans(queryLen);
    RefusedAt(mem, queryLen, 12, [], rest, q);
    var label_ := q + 1 + mem[q];
    if 0 < mem[q] < 64 && label_ <= queryLen && exists i :: q < i < label_ && !NameChar(mem[i]) {
      OddCharacter(mem, q + 1, label_);
    }
    var r := Run(mem, queryLen, Start(12, []));
    hide QuestionAt;
    if r.Err? {
      RefusedName(mem, queryLen, r.error);
      RefusedByNumber(mgr, mem, queryLen, r.error, reply);
    } else if mem[q] == 0 && q + 5 > queryLen {
      ShortOfOctets(mem, queryLen, rest, q);
      RefusedByNumber(mgr, mem, queryLen, QuestionUnderflow, reply);
    }
  }

  /** A query that the server tries to answer: for questions of class IN that can be parsed and copied. */
  predicate Sensible(mem: bytes, queryLen: nat)
    requires queryLen < |mem|
  {
    12 < queryLen && mem[2] < 8 && Short(mem, 4) > 0 &&
    match QuestionAt(mem, 12, queryLen - 12, [], 12)
    case Err(_) => false
    case Ok(p) => p.question.qclass == 1 && 12 + Short(mem, 4) * p.question.GetSize() < 512
  }

  function QuestionIn(mem: bytes, queryLen: nat): Question
    requires queryLen < |mem| && Sensible(mem, queryLen)
  {
    QuestionAt(mem, 12, queryLen - 12, [], 12).value.question
  }

  lemma OctetsStand(mem: bytes, i: nat, a: Asked)
    requires OctetsAt(mem, i, QuestionOctets(a))
    ensures var end := i + |QuestionOctets(a)|;
            end <= |mem| && OctetsAt(mem, i, PlainName(a.name)) && i + |PlainName(a.name)| == end - 4 &&
            Short(mem, end - 4) == a.qtype && Short(mem, end - 2) == a.qclass
  {
    var name := PlainName(a.name);
    assert QuestionOctets(a) == name + U16(a.qtype) + U16(a.qclass);
    assert i + |QuestionOctets(a)| <= |mem|;
    hide *;
    OctetsSplit(mem, i, name + U16(a.qtype), U16(a.qclass));
    OctetsSplit(mem, i, name, U16(a.qtype));
    ShortIs(mem, i + |name|, a.qtype);
    ShortIs(mem, i + |name| + 2, a.qclass);
  }

  /**
   * The question stands behind the header: its labels with their lengths, a zero octet, and two octets each for
   * type and class; that is what the server copies to the reply.
   */
  lemma QuestionStands(mem: bytes, queryLen: nat)
    requires queryLen < |mem| && Sensible(mem, queryLen)
    ensures var q := QuestionIn(mem, queryLen);
            var end := 12 + q.GetSize();
            end <= queryLen && OctetsAt(mem, 12, PlainName(q.labels)) && 12 + |PlainName(q.labels)| == end - 4 &&
            Short(mem, end - 4) == q.qtype && Short(mem, end - 2) == q.qclass == 1
  {
    FirstQuestion(mem, 12, queryLen - 12, 12);
    var q := QuestionIn(mem, queryLen);
    hide QuestionAt, QuestionOctets, PlainName, AllNames, Legal, OctetsAt, Encode;
    OctetsStand(mem, 12, q.Asks());
  }

  lemma SensibleByNumber(mgr: ZoneMgr, mem: bytes, queryLen: nat, reply: Option<bytes>)
    requires queryLen < |mem| && Sensible(mem, queryLen) && Replies(mgr, mem, queryLen, reply)
    ensures QuestionNumbers(mgr, mem, QuestionIn(mem, queryLen), Short(mem, 4), reply)
    ensures QuestionIn(mem, queryLen).labels != []
  {
    RepliesByNumber(mgr, mem, queryLen, reply);
    FirstQuestion(mem, 12, queryLen - 12, 12);
    hide Replies, QuestionAt, QuestionNumbers;
  }

  // ---- Two replies, down to the octets ----

  lemma CarriedFrame(out: bytes, mem: bytes, n: nat, plan: Plan, an: seq<Planned>, ns: seq<Planned>, ar: seq<Planned>,
                     k: nat)
    requires 12 <= |mem| && Carries(out, mem, n, plan, an, ns, ar) && k < |an|
    ensures ReadMessage(out).Some? && k < |ReadMessage(out).value.sections.answers| && an[k] == plan.answers[k]
    ensures Holds(out, ReadMessage(out).value.sections.answers[k], an[k].Says())
  {
    hide ReadMessage, Holds, FlagOctets;
  }

  lemma OneCopy(q: Question)
    ensures Copies(q, 1) == [q.(offset := 12)]
  {
  }

  /**
   * Asked for the IPv4 addresses of a zone that is no alias, the server sends them in order: type 1, class 1, a
   * time to live of 300, under the name asked for, four octets each. IPv6 likewise, with type 28 and sixteen.
   */
  lemma AddressReply(mgr: ZoneMgr, q: Question, out: bytes, mem: bytes, an: seq<Planned>, ns: seq<Planned>,
                     ar: seq<Planned>)
    requires 12 <= |mem| && (q.qtype == 1 || q.qtype == 28) && mgr.WholePlan(Copies(q, 1)).Ok?
    requires mgr.lookup(q.labels).zone.Some? && !IsAlias(mgr.lookup(q.labels).zone.value.data)
    requires Carries(out, mem, 1, mgr.WholePlan(Copies(q, 1)).value, an, ns, ar)
    ensures var data, frames := mgr.lookup(q.labels).zone.value.data, ReadMessage(out).value.sections.answers;
            forall k :: 0 <= k < |an| ==>
              k < |frames| && frames[k].owner == q.labels && frames[k].rtype == q.qtype && frames[k].rclass == 1 &&
              frames[k].ttl == 300 && frames[k].data <= frames[k].next <= |out| &&
              if q.qtype == 1 then k < |ListOf(data.a)| && out[frames[k].data..frames[k].next] == data.a.value[k]
              else k < |ListOf(data.aaaa)| && out[frames[k].data..frames[k].next] == data.aaaa.value[k]
  {
    var q1, data := q.(offset := 12), mgr.lookup(q.labels).zone.value.data;
    OneCopy(q);
    QuestionIs(mgr, q1);
    OneQuestion(mgr, q1);
    var plan := mgr.WholePlan([q1]).value;
    hide ZoneMgr.PlanQuestion, ZoneMgr.WholePlan, ReadMessage, Carries, ContentAt, AnswersByType.AuthorityIs,
         ServersAre,
         Nearest, NoSoa, Ancestor, Copies, AliasOf, AddressesOf;
    forall k | 0 <= k < |an|
      ensures var frames := ReadMessage(out).value.sections.answers;
              k < |frames| && frames[k].owner == q.labels && frames[k].rtype == q.qtype && frames[k].rclass == 1 &&
              frames[k].ttl == 300 && frames[k].data <= frames[k].next <= |out| &&
              if q.qtype == 1 then k < |ListOf(data.a)| && out[frames[k].data..frames[k].next] == data.a.value[k]
              else k < |ListOf(data.aaaa)| && out[frames[k].data..frames[k].next] == data.aaaa.value[k]
    {
      CarriedFrame(out, mem, 1, plan, an, ns, ar, k);
      AddressOctets(out, ReadMessage(out).value.sections.answers[k], an[k]);
    }
  }

  /** There is a plan for one question only if the question can be answered. */
  lemma Planable(mgr: ZoneMgr, q: Question)
    requires mgr.WholePlan([q]).Ok?
    ensures mgr.PlanQuestion(q).Ok?
  {
    hide ZoneMgr.PlanQuestion;
    assert [q][..0] == [] && mgr.PlanQuestions([]).Ok?;
  }

  lemma SoaAnswer(mgr: ZoneMgr, q: Question)
    requires mgr.PlanQuestion(q).Ok? && q.qtype == 6
    ensures mgr.lookup(q.labels).zone.Some?
    ensures var z, an := mgr.lookup(q.labels).zone.value, mgr.PlanQuestion(q).value.answers;
            |an| == 1 && exists n :: Nearest(z, n) &&
                           an[0] == Planned(AtQuestion(q), Answers.Soa(Ancestor(z, n).value.data.soa.value,
                                                                       Ancestor(z, n).value.Labels()))
  {
    QuestionIs(mgr, q);
    hide ZoneMgr.PlanQuestion, Ancestor, Nearest, NoSoa, Zone.Labels, AnswersByType.AuthorityIs, ServersAre;
  }

  /** A record that answers a question is owned by its name, of class 1, and with a time to live of 300. */
  lemma FrameIs(b: bytes, f: Framed, p: Planned, q: Question)
    requires Holds(b, f, p.Says()) && p.owner == AtQuestion(q)
    ensures f.owner == q.labels && f.rclass == 1 && f.ttl == 300
  {
    hide ContentAt;
  }

  /** Asked for the SOA record, the server sends the numbers of the nearest zone upwards that has one. */
  lemma SoaReply(mgr: ZoneMgr, q: Question, out: bytes, mem: bytes, an: seq<Planned>, ns: seq<Planned>,
                 ar: seq<Planned>)
    requires 12 <= |mem| && q.qtype == 6 && mgr.WholePlan(Copies(q, 1)).Ok? && an != []
    requires Carries(out, mem, 1, mgr.WholePlan(Copies(q, 1)).value, an, ns, ar)
    ensures mgr.lookup(q.labels).zone.Some? && ReadMessage(out).value.sections.answers != []
    ensures var z, f := mgr.lookup(q.labels).zone.value, ReadMessage(out).value.sections.answers[0];
            f.owner == q.labels && f.rtype == 6 && f.rclass == 1 && f.ttl == 300 && 20 <= f.next <= |out| &&
            exists n ::
              Nearest(z, n) &&
              var s, e := Ancestor(z, n).value.data.soa.value, f.next;
              Long(out, e - 20) == s.serial && Long(out, e - 16) == s.refresh && Long(out, e - 12) == s.retry &&
              Long(out, e - 8) == s.expire && Long(out, e - 4) == s.minimum
  {
    hide *;
    var q1 := q.(offset := 12);
    OneCopy(q);
    Planable(mgr, q1);
    OneQuestion(mgr, q1);
    CarriedFrame(out, mem, 1, mgr.WholePlan([q1]).value, an, ns, ar, 0);
    SoaAnswer(mgr, q1);
    SoaOctets(out, ReadMessage(out).value.sections.answers[0], an[0]);
    FrameIs(out, ReadMessage(out).value.sections.answers[0], an[0], q1);
  }
}
