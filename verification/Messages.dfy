/**
 * A reader for whole messages (section 4.1 of RFC 1035) that knows nothing of how they were written,
 * and what it means for a record in a buffer to say the intended thing.
 */
module Messages {
  import opened Bytes
  import opened Compression
  import opened MessageHeaders

  const CLASS_IN: uint16 := 1
  const TTL: uint32 := 300

  /** What a resource record says. Its data is some octets, some domain names, and more octets. */
  datatype Content = Content(prefix: bytes, names: seq<seq<bytes>>, suffix: bytes)
  datatype Record = Record(owner: seq<bytes>, rtype: uint16, content: Content)
  datatype Asked = Asked(name: seq<bytes>, qtype: uint16, qclass: uint16)

  // ----- the reader -----

  /** A record as framed on the wire: its data occupies the octets from `data` up to `next`. */
  datatype Framed = Framed(owner: seq<bytes>, rtype: uint16, rclass: uint16, ttl: uint32, data: nat, next: nat)
  datatype Message = Message(header: Header, questions: seq<Asked>, sections: Sections)

  function ReadName(b: bytes, pos: nat): Option<seq<bytes>> {
    NameAt(b, NO_HOLE, pos, pos)
  }

  function ReadQuestion(b: bytes, pos: nat): Option<(Asked, nat)> {
    var e := NameEnd(b, pos);
    match ReadName(b, pos)
    case Some(name) =>
      if e + 4 <= |b| then Some((Asked(name, GetU16(b, e), GetU16(b, e + 2)), e + 4)) else None
    case None => None
  }

  function ReadFrame(b: bytes, pos: nat): Option<Framed> {
    var e := NameEnd(b, pos);
    match ReadName(b, pos)
    case Some(owner) =>
      if e + 10 <= |b| && e + 10 + GetU16(b, e + 8) <= |b| then
        Some(Framed(owner, GetU16(b, e), GetU16(b, e + 2), GetU32(b, e + 4), e + 10, e + 10 + GetU16(b, e + 8)))
      else None
    case None => None
  }

  function ReadQuestions(b: bytes, pos: nat, n: nat): Option<(seq<Asked>, nat)>
    decreases n
  {
    if n == 0 then Some(([], pos))
    else
      match ReadQuestion(b, pos)
      case None => None
      case Some((q, next)) =>
        match ReadQuestions(b, next, n - 1)
        case None => None
        case Some((rest, end)) => Some(([q] + rest, end))
  }

  function ReadFrames(b: bytes, pos: nat, n: nat): Option<(seq<Framed>, nat)>
    decreases n
  {
    if n == 0 then Some(([], pos))
    else
      match ReadFrame(b, pos)
      case None => None
      case Some(f) =>
        match ReadFrames(b, f.next, n - 1)
        case None => None
        case Some((rest, end)) => Some(([f] + rest, end))
  }

  datatype Sections = Sections(answers: seq<Framed>, authority: seq<Framed>, additional: seq<Framed>, end: nat)

  function ReadSections(b: bytes, pos: nat, h: Header): Option<Sections> {
    match ReadFrames(b, pos, h.ancount)
    case None => None
    case Some((an, p2)) =>
      match ReadFrames(b, p2, h.nscount)
      case None => None
      case Some((ns, p3)) =>
        match ReadFrames(b, p3, h.arcount)
        case None => None
        case Some((ar, p4)) => Some(Sections(an, ns, ar, p4))
  }

  /** Header, then as many questions and records as it announces, and not an octet more. */
  function ReadMessage(b: bytes): Option<Message> {
    if |b| < HEADER_SIZE then None else ReadBody(b, ReadHeader(b))
  }

  function ReadBody(b: bytes, h: Header): Option<Message> {
    match ReadQuestions(b, HEADER_SIZE, h.qdcount)
    case None => None
    case Some((qs, pos)) =>
      match ReadSections(b, pos, h)
      case None => None
      case Some(s) => if s.end == |b| then Some(Message(h, qs, s)) else None
  }

  // ----- what the octets say -----

  /** The position after these names, provided that they are what stands at `pos`. */
  function AfterNames(b: bytes, hole: nat, pos: nat, names: seq<seq<bytes>>): Option<nat>
    decreases |names|
  {
    if names == [] then Some(pos)
    else if NameAt(b, hole, pos, pos) == Some(names[0]) then AfterNames(b, hole, NameEnd(b, pos), names[1..])
    else None
  }

  predicate NamesAt(b: bytes, hole: nat, pos: nat, names: seq<seq<bytes>>, end: nat) {
    AfterNames(b, hole, pos, names) == Some(end)
  }

  predicate ContentAt(b: bytes, pos: nat, c: Content, end: nat) {
    |c.suffix| <= end && OctetsAt(b, pos, c.prefix) && OctetsAt(b, end - |c.suffix|, c.suffix) &&
    NamesAt(b, NO_HOLE, pos + |c.prefix|, c.names, end - |c.suffix|)
  }

  /** The frame holds this record: class IN, the common time to live, and data that decodes to the content. */
  predicate Holds(b: bytes, f: Framed, r: Record) {
    f.owner == r.owner && f.rtype == r.rtype && f.rclass == CLASS_IN && f.ttl == TTL &&
    ContentAt(b, f.data, r.content, f.next)
  }

  predicate RecordAt(b: bytes, pos: nat, r: Record, end: nat) {
    var f := ReadFrame(b, pos);
    f.Some? && f.value.next == end && Holds(b, f.value, r)
  }

  predicate RecordsAt(b: bytes, pos: nat, rs: seq<Record>, end: nat)
    decreases |rs|
  {
    if rs == [] then pos == end
    else
      var f := ReadFrame(b, pos);
      f.Some? && Holds(b, f.value, rs[0]) && RecordsAt(b, f.value.next, rs[1..], end)
  }

  predicate QuestionsAt(b: bytes, pos: nat, qs: seq<Asked>, end: nat)
    decreases |qs|
  {
    if qs == [] then pos == end
    else
      var q := ReadQuestion(b, pos);
      q.Some? && q.value.0 == qs[0] && QuestionsAt(b, q.value.1, qs[1..], end)
  }

  predicate AllHold(b: bytes, fs: seq<Framed>, rs: seq<Record>) {
    |fs| == |rs| && forall k :: 0 <= k < |rs| ==> Holds(b, fs[k], rs[k])
  }

  // ----- only legal names can be read -----

  lemma {:induction false} ReadListIsLegal(b: bytes, hole: nat, pos: nat, names: seq<seq<bytes>>, end: nat)
    requires NamesAt(b, hole, pos, names, end)
    ensures forall k :: 0 <= k < |names| ==> Legal(names[k])
    decreases |names|
  {
    hide NameAt, NameEnd, Legal;
    if names != [] {
      ReadNamesAreLegal(b, hole, pos, pos);
      ReadListIsLegal(b, hole, NameEnd(b, pos), names[1..], end);
      assert forall k :: 1 <= k < |names| ==> names[k] == names[1..][k - 1];
    }
  }

  /** Whatever octets read as a record, its owner and all names in its data have labels of 1 to 63 octets. */
  lemma ReadRecordIsLegal(b: bytes, pos: nat, r: Record, end: nat)
    requires RecordAt(b, pos, r, end)
    ensures Legal(r.owner) && forall k :: 0 <= k < |r.content.names| ==> Legal(r.content.names[k])
  {
    hide NameAt, NameEnd, Legal, AfterNames;
    var f := ReadFrame(b, pos).value;
    ReadNamesAreLegal(b, NO_HOLE, pos, pos);
    ReadListIsLegal(b, NO_HOLE, f.data + |r.content.prefix|, r.content.names, f.next - |r.content.suffix|);
  }

  // ----- later octets and a new header do not change what was said -----

  predicate Extends(b: bytes, b': bytes) {
    |b| <= |b'| && forall i :: HEADER_SIZE <= i < |b| ==> b'[i] == b[i]
  }

  lemma {:induction false} FrameNames(b: bytes, hole: nat, b': bytes, hole': nat, pos: nat, names: seq<seq<bytes>>,
                                      end: nat)
    requires NamesAt(b, hole, pos, names, end) && Kept(b, hole, b', hole')
    ensures NamesAt(b', hole', pos, names, end)
    decreases |names|
  {
    hide NameAt, NameEnd, Kept;
    if names != [] {
      Frame(b, hole, b', hole', pos, pos);
      FrameNames(b, hole, b', hole', NameEnd(b, pos), names[1..], end);
    }
  }

  /** One more name at the end of a list of names. */
  lemma {:induction false} NamesSnoc(b: bytes, hole: nat, pos: nat, names: seq<seq<bytes>>, mid: nat, n: seq<bytes>,
                                     end: nat)
    requires NamesAt(b, hole, pos, names, mid) && NameAt(b, hole, mid, mid) == Some(n) && NameEnd(b, mid) == end
    ensures NamesAt(b, hole, pos, names + [n], end)
    decreases |names|
  {
    if names == [] {
      assert ([n])[1..] == [];
    } else {
      assert (names + [n])[1..] == names[1..] + [n];
      NamesSnoc(b, hole, NameEnd(b, pos), names[1..], mid, n, end);
    }
  }

  lemma {:induction false} NameEndAfter(b: bytes, pos: nat)
    ensures pos <= NameEnd(b, pos)
    decreases |b| - pos
  {
    if pos < |b| && 0 < b[pos] < 64 { NameEndAfter(b, pos + 1 + b[pos]); }
  }

  lemma NameStable(b: bytes, b': bytes, pos: nat)
    requires Extends(b, b') && NameAt(b, NO_HOLE, pos, pos).Some?
    ensures NameAt(b', NO_HOLE, pos, pos) == NameAt(b, NO_HOLE, pos, pos)
    ensures pos <= NameEnd(b', pos) == NameEnd(b, pos) <= |b|
  {
    hide NameAt, NameEnd;
    Frame(b, NO_HOLE, b', NO_HOLE, pos, pos);
    NameEndAfter(b, pos);
  }

  lemma ReadFrameStable(b: bytes, b': bytes, pos: nat)
    requires Extends(b, b') && HEADER_SIZE <= pos && ReadFrame(b, pos).Some?
    ensures ReadFrame(b', pos) == ReadFrame(b, pos)
    ensures HEADER_SIZE <= ReadFrame(b, pos).value.data <= ReadFrame(b, pos).value.next <= |b|
  {
    hide NameAt, NameEnd;
    NameStable(b, b', pos);
    var e := NameEnd(b, pos);
    assert forall i :: e <= i < e + 10 ==> b'[i] == b[i];
    hide Extends;
  }

  lemma HoldsStable(b: bytes, b': bytes, f: Framed, r: Record)
    requires Extends(b, b') && Holds(b, f, r) && HEADER_SIZE <= f.data <= f.next <= |b|
    requires HEADER_SIZE <= f.next - |r.content.suffix|
    ensures Holds(b', f, r)
  {
    var c := r.content;
    FrameNames(b, NO_HOLE, b', NO_HOLE, f.data + |c.prefix|, c.names, f.next - |c.suffix|);
    assert b'[f.data..f.data + |c.prefix|] == b[f.data..f.data + |c.prefix|];
    assert b'[f.next - |c.suffix|..f.next] == b[f.next - |c.suffix|..f.next];
  }

  lemma {:induction false} NamesForward(b: bytes, hole: nat, pos: nat, names: seq<seq<bytes>>, end: nat)
    requires NamesAt(b, hole, pos, names, end)
    ensures pos <= end
    decreases |names|
  {
    if names != [] {
      NameEndAfter(b, pos);
      NamesForward(b, hole, NameEnd(b, pos), names[1..], end);
    }
  }

  lemma {:induction false} RecordsStable(b: bytes, b': bytes, pos: nat, rs: seq<Record>, end: nat)
    requires Extends(b, b') && HEADER_SIZE <= pos && RecordsAt(b, pos, rs, end)
    ensures RecordsAt(b', pos, rs, end)
    decreases |rs|
  {
    hide NameAt, NameEnd, AfterNames;
    if rs != [] {
      ReadFrameStable(b, b', pos);
      var f := ReadFrame(b, pos).value;
      NamesForward(b, NO_HOLE, f.data + |rs[0].content.prefix|, rs[0].content.names, f.next - |rs[0].content.suffix|);
      HoldsStable(b, b', f, rs[0]);
      RecordsStable(b, b', f.next, rs[1..], end);
    }
  }

  lemma QuestionStable(b: bytes, b': bytes, pos: nat)
    requires Extends(b, b') && HEADER_SIZE <= pos && ReadQuestion(b, pos).Some?
    ensures ReadQuestion(b', pos) == ReadQuestion(b, pos) && pos <= ReadQuestion(b, pos).value.1
  {
    hide NameAt, NameEnd;
    NameStable(b, b', pos);
    var e := NameEnd(b, pos);
    assert forall i :: e <= i < e + 4 ==> b'[i] == b[i];
    hide Extends;
  }

  lemma {:induction false} QuestionsStable(b: bytes, b': bytes, pos: nat, qs: seq<Asked>, end: nat)
    requires Extends(b, b') && HEADER_SIZE <= pos && QuestionsAt(b, pos, qs, end)
    ensures QuestionsAt(b', pos, qs, end)
    decreases |qs|
  {
    hide ReadQuestion, Extends;
    if qs != [] {
      QuestionStable(b, b', pos);
      QuestionsStable(b, b', ReadQuestion(b, pos).value.1, qs[1..], end);
    }
  }

  // ----- concatenation -----

  lemma {:induction false} RecordsSnoc(b: bytes, pos: nat, rs: seq<Record>, mid: nat, r: Record, end: nat)
    requires RecordsAt(b, pos, rs, mid) && RecordAt(b, mid, r, end)
    ensures RecordsAt(b, pos, rs + [r], end)
    decreases |rs|
  {
    var all := rs + [r];
    if rs == [] {
      assert all[0] == r && all[1..] == [];
    } else {
      var next := ReadFrame(b, pos).value.next;
      assert all[0] == rs[0] && all[1..] == rs[1..] + [r];
      RecordsSnoc(b, next, rs[1..], mid, r, end);
    }
  }

  lemma {:induction false} RecordsSplit(b: bytes, pos: nat, xs: seq<Record>, ys: seq<Record>, end: nat)
    returns (mid: nat)
    requires RecordsAt(b, pos, xs + ys, end)
    ensures RecordsAt(b, pos, xs, mid) && RecordsAt(b, mid, ys, end)
    decreases |xs|
  {
    if xs == [] {
      assert xs + ys == ys;
      mid := pos;
    } else {
      assert (xs + ys)[1..] == xs[1..] + ys;
      mid := RecordsSplit(b, ReadFrame(b, pos).value.next, xs[1..], ys, end);
    }
  }

  lemma {:induction false} QuestionsSnoc(b: bytes, pos: nat, qs: seq<Asked>, mid: nat, q: Asked, end: nat)
    requires QuestionsAt(b, pos, qs, mid) && ReadQuestion(b, mid) == Some((q, end))
    ensures QuestionsAt(b, pos, qs + [q], end)
    decreases |qs|
  {
    if qs == [] {
      assert ([q])[1..] == [];
    } else {
      assert (qs + [q])[1..] == qs[1..] + [q];
      QuestionsSnoc(b, ReadQuestion(b, pos).value.1, qs[1..], mid, q, end);
    }
  }

  // ----- the reader finds what the octets say -----

  lemma AllHoldCons(b: bytes, f: Framed, fs: seq<Framed>, r: Record, rs: seq<Record>)
    requires Holds(b, f, r) && AllHold(b, fs, rs)
    ensures AllHold(b, [f] + fs, [r] + rs)
  {
    hide Holds;
  }

  lemma {:induction false} ReadsRecords(b: bytes, pos: nat, rs: seq<Record>, end: nat)
    requires RecordsAt(b, pos, rs, end)
    ensures var r := ReadFrames(b, pos, |rs|);
            r.Some? && r.value.1 == end && AllHold(b, r.value.0, rs)
    decreases |rs|
  {
    hide NameAt, NameEnd, ReadFrame, Holds;
    if rs != [] {
      var f := ReadFrame(b, pos).value;
      ReadsRecords(b, f.next, rs[1..], end);
      var r := ReadFrames(b, f.next, |rs| - 1).value;
      AllHoldCons(b, f, r.0, rs[0], rs[1..]);
      assert [rs[0]] + rs[1..] == rs;
    }
  }

  lemma {:induction false} ReadsQuestions(b: bytes, pos: nat, qs: seq<Asked>, end: nat)
    requires QuestionsAt(b, pos, qs, end)
    ensures ReadQuestions(b, pos, |qs|) == Some((qs, end))
    decreases |qs|
  {
    if qs != [] {
      ReadsQuestions(b, ReadQuestion(b, pos).value.1, qs[1..], end);
      assert qs == [qs[0]] + qs[1..];
    }
  }

  /** A record takes at least eleven octets, so the sections of a short message have few records. */
  lemma {:induction false} RecordsTakeRoom(b: bytes, pos: nat, rs: seq<Record>, end: nat)
    requires RecordsAt(b, pos, rs, end)
    ensures pos + |rs| <= end
    decreases |rs|
  {
    if rs != [] {
      NameEndAfter(b, pos);
      RecordsTakeRoom(b, ReadFrame(b, pos).value.next, rs[1..], end);
    }
  }

  lemma ReadsSections(b: bytes, pos: nat, h: Header, an: seq<Record>, ns: seq<Record>, ar: seq<Record>, end: nat)
    requires RecordsAt(b, pos, an + ns + ar, end)
    requires h.ancount == |an| && h.nscount == |ns| && h.arcount == |ar|
    ensures var r := ReadSections(b, pos, h);
            r.Some? && r.value.end == end && AllHold(b, r.value.answers, an) &&
            AllHold(b, r.value.authority, ns) && AllHold(b, r.value.additional, ar)
  {
    var p3 := RecordsSplit(b, pos, an + ns, ar, end);
    var p2 := RecordsSplit(b, pos, an, ns, p3);
    ReadsRecords(b, pos, an, p2);
    ReadsRecords(b, p2, ns, p3);
    ReadsRecords(b, p3, ar, end);
  }

  lemma BodyIs(b: bytes, h: Header, qs: seq<Asked>, pos: nat, s: Sections)
    requires ReadQuestions(b, HEADER_SIZE, h.qdcount) == Some((qs, pos))
    requires ReadSections(b, pos, h) == Some(s) && s.end == |b|
    ensures ReadBody(b, h) == Some(Message(h, qs, s))
  {
  }

  /** The sections a reader found hold these records. */
  predicate SectionsHold(b: bytes, s: Sections, an: seq<Record>, ns: seq<Record>, ar: seq<Record>) {
    AllHold(b, s.answers, an) && AllHold(b, s.authority, ns) && AllHold(b, s.additional, ar)
  }

  /** Questions, then the three sections, then nothing: the reader returns exactly these. */
  lemma ReadsBody(b: bytes, h: Header, qs: seq<Asked>, pos: nat, an: seq<Record>, ns: seq<Record>, ar: seq<Record>)
    requires QuestionsAt(b, HEADER_SIZE, qs, pos) && RecordsAt(b, pos, an + ns + ar, |b|)
    requires h.qdcount == |qs| && h.ancount == |an| && h.nscount == |ns| && h.arcount == |ar|
    ensures var m := ReadBody(b, h);
            m.Some? && m.value.header == h && m.value.questions == qs && SectionsHold(b, m.value.sections, an, ns, ar)
  {
    hide ReadBody, QuestionsAt, RecordsAt, AllHold, ReadSections, ReadQuestions;
    ReadsQuestions(b, HEADER_SIZE, qs, pos);
    ReadsSections(b, pos, h, an, ns, ar, |b|);
    BodyIs(b, h, qs, pos, ReadSections(b, pos, h).value);
  }
}
