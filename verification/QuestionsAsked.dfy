/** Which questions of a query are answered: all of them only if they are the same. */
module QuestionsAsked {
  import opened Bytes
  import opened Compression
  import opened Messages
  import opened LabelHeaders
  import opened Responses
  import opened DnsDaemons

  /** The first question, as the server parses it, is the first one a reader of the message finds. */
  lemma FirstIsRead(mem: bytes, queryLen: nat)
    requires HEADER_SIZE < queryLen < |mem|
    requires QuestionAt(mem, HEADER_SIZE, queryLen - HEADER_SIZE, [], HEADER_SIZE).Ok?
    ensures var q := QuestionAt(mem, HEADER_SIZE, queryLen - HEADER_SIZE, [], HEADER_SIZE).value.question;
            ReadQuestion(mem[..queryLen], HEADER_SIZE) == Some((q.Asks(), HEADER_SIZE + q.GetSize()))
  {
    hide QuestionAt, QuestionOctets, ReadQuestion, NameAt, NameEnd, AllNames, Encode, Legal, Extends;
    var q := QuestionAt(mem, HEADER_SIZE, queryLen - HEADER_SIZE, [], HEADER_SIZE).value.question;
    FirstQuestion(mem, HEADER_SIZE, queryLen - HEADER_SIZE, HEADER_SIZE);
    var b' := mem[..HEADER_SIZE] + QuestionOctets(q.Asks());
    QuestionReads(mem[..HEADER_SIZE], q.Asks());
    FrontExtends(mem, queryLen, QuestionOctets(q.Asks()));
    QuestionStable(b', mem[..queryLen], HEADER_SIZE);
  }

  lemma FrontExtends(mem: bytes, queryLen: nat, x: bytes)
    requires HEADER_SIZE + |x| <= queryLen <= |mem| && OctetsAt(mem, HEADER_SIZE, x)
    ensures Extends(mem[..HEADER_SIZE] + x, mem[..queryLen])
  {
    assert mem[..HEADER_SIZE] + x == mem[..HEADER_SIZE + |x|];
  }

  lemma FirstAsked(b: bytes, pos: nat, n: nat)
    requires n > 0 && Messages.ReadQuestions(b, pos, n).Some?
    ensures |Messages.ReadQuestions(b, pos, n).value.0| == n
    ensures ReadQuestion(b, pos).Some? && Messages.ReadQuestions(b, pos, n).value.0[0] == ReadQuestion(b, pos).value.0
    decreases n
  {
    if n > 1 { FirstAsked(b, ReadQuestion(b, pos).value.1, n - 1); }
  }

  /**
   * For a query of one question and for one of several: the questions answered are those asked just
   * when all asked are the same.
   */
  lemma AnsweredAreAsked(mem: bytes, queryLen: nat, n: nat, asked: seq<Asked>, end: nat)
    requires HEADER_SIZE <= queryLen < |mem| && n > 0 && QuestionsOf(mem, queryLen, n).Ok?
    requires Messages.ReadQuestions(mem[..queryLen], HEADER_SIZE, n) == Some((asked, end))
    ensures |asked| == n
    ensures AllAsk(QuestionsOf(mem, queryLen, n).value) == asked <==> forall k :: 0 <= k < n ==> asked[k] == asked[0]
  {
    var first := QuestionAt(mem, HEADER_SIZE, queryLen - HEADER_SIZE, [], HEADER_SIZE).value.question;
    var qs := QuestionsOf(mem, queryLen, n).value;
    FirstIsRead(mem, queryLen);
    FirstAsked(mem[..queryLen], HEADER_SIZE, n);
    assert qs == Copies(first, n);
    hide QuestionAt, QuestionsOf, ReadQuestion;
    assert forall k :: 0 <= k < n ==> qs[k].Asks() == first.Asks() == asked[0];
  }

  /** Two questions behind a header, and one more octet of memory behind the datagram. */
  function TwoQuestions(header: bytes, a: Asked, b: Asked): bytes {
    header + QuestionOctets(a) + QuestionOctets(b) + [0]
  }

  /** A question whose name and class the server takes, small enough to be copied twice. */
  predicate Accepted(a: Asked) {
    Legal(a.name) && a.name != [] && AllNames(a.name) && |Encode(a.name)| - |a.name| <= 254 && a.qclass == CLASS_IN &&
    HEADER_SIZE + 2 * |QuestionOctets(a)| < MAX_REPLY
  }

  /** A query of these octets asks two things, as a reader finds them, and is answered for two others. */
  predicate AskedAndAnswered(mem: bytes, queryLen: nat, asked: seq<Asked>, answered: seq<Asked>)
    requires HEADER_SIZE <= queryLen < |mem|
  {
    Messages.ReadQuestions(mem[..queryLen], HEADER_SIZE, 2) == Some((asked, queryLen)) &&
    QuestionsOf(mem, queryLen, 2).Ok? && AllAsk(QuestionsOf(mem, queryLen, 2).value) == answered
  }

  /** A query for two things is answered as a query for the first one twice. */
  lemma SecondIsNotAnswered(header: bytes, a: Asked, b: Asked)
    requires |header| == HEADER_SIZE && Accepted(a) && Legal(b.name)
    ensures AskedAndAnswered(TwoQuestions(header, a, b), |TwoQuestions(header, a, b)| - 1, [a, b], [a, a])
  {
    hide QuestionsOf, QuestionAt, QuestionOctets, Messages.ReadQuestions, AllAsk, AllNames, Legal, Encode;
    var mem := TwoQuestions(header, a, b);
    var queryLen := |mem| - 1;
    ReaderFindsBoth(header, a, b);
    assert mem[..queryLen] == header + QuestionOctets(a) + QuestionOctets(b);
    assert mem == header + QuestionOctets(a) + (QuestionOctets(b) + [0]);
    ServerFindsFirst(header, a, QuestionOctets(b) + [0], queryLen);
    TwoCopies(mem, queryLen, a);
  }

  lemma TwoCopies(mem: bytes, queryLen: nat, a: Asked)
    requires HEADER_SIZE < queryLen < |mem| && a.qclass == CLASS_IN && HEADER_SIZE + 2 * |QuestionOctets(a)| < MAX_REPLY
    requires var q := QuestionAt(mem, HEADER_SIZE, queryLen - HEADER_SIZE, [], HEADER_SIZE);
             q.Ok? && q.value.question.Asks() == a && q.value.question.GetSize() == |QuestionOctets(a)|
    ensures QuestionsOf(mem, queryLen, 2).Ok? && AllAsk(QuestionsOf(mem, queryLen, 2).value) == [a, a]
  {
    hide QuestionAt, QuestionOctets;
    var qs := QuestionsOf(mem, queryLen, 2).value;
    assert AllAsk(qs)[0] == a && AllAsk(qs)[1] == a;
  }

  lemma ReaderFindsBoth(header: bytes, a: Asked, b: Asked)
    requires |header| == HEADER_SIZE && Legal(a.name) && Legal(b.name)
    ensures var out := header + QuestionOctets(a) + QuestionOctets(b);
            Messages.ReadQuestions(out, HEADER_SIZE, 2) == Some(([a, b], |out|))
  {
    hide ReadQuestion, QuestionOctets, NameAt;
    var b1 := header + QuestionOctets(a);
    var b2 := b1 + QuestionOctets(b);
    QuestionReads(header, a);
    QuestionReads(b1, b);
    QuestionStable(b1, b2, HEADER_SIZE);
    QuestionsSnoc(b2, HEADER_SIZE, [], HEADER_SIZE, a, |b1|);
    QuestionsSnoc(b2, HEADER_SIZE, [] + [a], |b1|, b, |b2|);
    assert [] + [a] + [b] == [a, b];
    ReadsQuestions(b2, HEADER_SIZE, [a, b], |b2|);
  }

  lemma ServerFindsFirst(header: bytes, a: Asked, rest: bytes, queryLen: nat)
    requires |header| == HEADER_SIZE && Accepted(a) &&
             |header + QuestionOctets(a)| <= queryLen < |header + QuestionOctets(a) + rest|
    ensures var mem := header + QuestionOctets(a) + rest;
            var q := QuestionAt(mem, HEADER_SIZE, queryLen - HEADER_SIZE, [], HEADER_SIZE);
            q.Ok? && q.value.question.Asks() == a && q.value.question.GetSize() == |QuestionOctets(a)|
  {
    hide AllNames, Run, Texts, Encode;
    var mem := header + QuestionOctets(a) + rest;
    var q := HEADER_SIZE + |Encode(a.name)|;
    assert mem[HEADER_SIZE..q] == Encode(a.name) && mem[q] == 0;
    assert mem[q + 1] == U16(a.qtype)[0] && mem[q + 2] == U16(a.qtype)[1];
    assert mem[q + 3] == U16(a.qclass)[0] && mem[q + 4] == U16(a.qclass)[1];
    ParserUndoesPrinter(mem, queryLen, HEADER_SIZE, a.name, []);
    assert GetU16(mem, q + 1) == a.qtype && GetU16(mem, q + 3) == a.qclass;
  }

  /** Asked for the addresses of a and of b, the server answers twice for a. */
  lemma TwoNamesAskedOneAnswered()
    ensures var a, b := Asked([[97]], 1, CLASS_IN), Asked([[98]], 1, CLASS_IN);
            var mem := TwoQuestions(seq(HEADER_SIZE, _ => 0), a, b);
            AskedAndAnswered(mem, |mem| - 1, [a, b], [a, a]) && [a, a] != [a, b]
  {
    var a, b := Asked([[97]], 1, CLASS_IN), Asked([[98]], 1, CLASS_IN);
    assert a.name[1..] == [];
    assert Encode(a.name) == [1] + [97] + Encode([]);
    assert [a, a][1] != [a, b][1];
    SecondIsNotAnswered(seq(HEADER_SIZE, _ => 0), a, b);
  }
}
