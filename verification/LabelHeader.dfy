/**
 * Parsing the name and the question of a query from untrusted octets. Positions are offsets into the
 * memory that starts with the message; a label is a range of it.
 */
module LabelHeaders {
  import opened Bytes
  import opened Compression
  import opened Messages

  /** A boost::string_ref into the message. */
  datatype Span = Span(start: nat, len: nat)
  {
    function End(): nat {
      start + len
    }
  }

  datatype Refusal = LabelHeaderException | NoLabels | IllegalLabel | IllegalPointer | QuestionUnderflow

  /** The state of the parsing loop. */
  datatype Cursor = Cursor(p: nat, names: seq<Span>, size: nat, bufferSize: nat, known: seq<Span>, traversing: bool)

  const MAX_LABELS_SIZE: nat := 255

  predicate NameChar(c: byte) {
    97 <= c <= 122 || 65 <= c <= 90 || 48 <= c <= 57 || c == 46 || c == 45 || c == 95
  }

  /** Letters, digits, the dot, the hyphen and the underscore. */
  lemma NameCharIs(c: byte)
    ensures var x := c as char;
            NameChar(c) <==> 'a' <= x <= 'z' || 'A' <= x <= 'Z' || '0' <= x <= '9' || x == '.' || x == '-' || x == '_'
  {
  }

  predicate NameText(t: bytes) {
    t != [] && forall i :: 0 <= i < |t| ==> NameChar(t[i])
  }

  predicate Inside(spans: seq<Span>, end: nat) {
    forall k :: 0 <= k < |spans| ==> spans[k].End() <= end
  }

  function Text(mem: bytes, s: Span): bytes
    requires s.End() <= |mem|
  {
    mem[s.start..s.End()]
  }

  function Texts(mem: bytes, spans: seq<Span>): (r: seq<bytes>)
    requires Inside(spans, |mem|)
    ensures |r| == |spans| && forall k :: 0 <= k < |spans| ==> r[k] == Text(mem, spans[k])
  {
    seq(|spans|, k requires 0 <= k < |spans| => Text(mem, spans[k]))
  }

  /** The first known label that begins at this offset. */
  function FindPointer(pointer: nat, known: seq<Span>): (r: Option<Span>)
    ensures r.Some? ==> r.value in known && r.value.start == pointer
    ensures r.None? ==> forall k :: 0 <= k < |known| ==> known[k].start != pointer
  {
    if known == [] then None
    else if known[0].start == pointer then Some(known[0])
    else FindPointer(pointer, known[1..])
  }

  /** The pointer as the parser reads it: the two octets in host order, without the tag bits. */
  function PointerAt(mem: bytes, p: nat): nat
    requires p + 2 <= |mem|
  {
    Offset(mem[p] as int + 0x100 * (mem[p + 1] as int))
  }

  datatype Outcome = Next(c: Cursor) | Done(c: Cursor) | Refused(why: Refusal)

  /** One round of the parsing loop. The octet at `end` may be read. */
  function Step(mem: bytes, end: nat, c: Cursor): (o: Outcome)
    requires c.p <= end < |mem| && Inside(c.known, end) && Inside(c.names, end)
    ensures o.Next? ==>
              o.c.p <= end && Inside(o.c.known, end) && Inside(o.c.names, end) && c.size < o.c.size <= MAX_LABELS_SIZE
    ensures o.Done? ==> Inside(o.c.known, end) && Inside(o.c.names, end) && o.c.size <= MAX_LABELS_SIZE
  {
    var len := mem[c.p];
    if len == 0 then
      var c' := c.(size := c.size + 1, bufferSize := c.bufferSize + if c.traversing then 0 else 1);
      if c'.size > MAX_LABELS_SIZE then Refused(LabelHeaderException)
      else if c.names == [] then Refused(NoLabels)
      else Done(c')
    else if len < 64 then
      var label_ := Span(c.p + 1, len);
      if label_.End() > end then Refused(LabelHeaderException)
      else if c.size + len > MAX_LABELS_SIZE then Refused(LabelHeaderException)
      else if !NameText(Text(mem, label_)) then Refused(IllegalLabel)
      else
        Next(Cursor(label_.End(), c.names + [label_], c.size + len,
                    c.bufferSize + if c.traversing then 0 else len + 1,
                    if c.traversing then c.known else c.known + [label_], c.traversing))
    else if len >= 0xC0 then
      if c.p + 1 >= end then Refused(LabelHeaderException)
      else if c.size + 2 > MAX_LABELS_SIZE then Refused(LabelHeaderException)
      else
        match FindPointer(PointerAt(mem, c.p), c.known)
        case None => Refused(IllegalPointer)
        case Some(s) =>
          Next(Cursor(s.End(), c.names + [s], c.size + 2, c.bufferSize + if c.traversing then 0 else 2, c.known, true))
    else Refused(LabelHeaderException)
  }

  /** The whole loop. It ends because every round spends part of a budget of 255. */
  function Run(mem: bytes, end: nat, c: Cursor): (r: Result<Cursor, Refusal>)
    requires c.p <= end < |mem| && Inside(c.known, end) && Inside(c.names, end)
    ensures r.Ok? ==> Inside(r.value.names, end) && Inside(r.value.known, end) && r.value.size <= MAX_LABELS_SIZE
    decreases if c.size <= MAX_LABELS_SIZE then MAX_LABELS_SIZE - c.size + 1 else 0
  {
    match Step(mem, end, c)
    case Refused(why) => Err(why)
    case Done(c') => Ok(c')
    case Next(c') => Run(mem, end, c')
  }

  lemma OneRound(mem: bytes, end: nat, c: Cursor)
    requires c.p <= end < |mem| && Inside(c.known, end) && Inside(c.names, end)
    ensures var o := Step(mem, end, c);
            (o.Refused? ==> Run(mem, end, c) == Err(o.why)) && (o.Done? ==> Run(mem, end, c) == Ok(o.c)) &&
            (o.Next? ==> Run(mem, end, c) == Run(mem, end, o.c))
  {
  }

  function Start(p: nat, known: seq<Span>): Cursor {
    Cursor(p, [], 0, 0, known, false)
  }

  /** The vector of labels seen so far in the message, shared by all questions. */
  class KnownLabels {
    var spans: seq<Span>

    constructor ()
      ensures spans == []
    {
      spans := [];
    }
  }

  class LabelHeader {
    var names: seq<Span>
    var size: nat
    var bufferSize: nat

    constructor ()
      ensures names == [] && size == 0 && bufferSize == 0
    {
      names, size, bufferSize := [], 0, 0;
    }

    method FindKnown(pointer: nat, labels: seq<Span>) returns (r: Option<Span>)
      ensures r == FindPointer(pointer, labels)
    {
      for i := 0 to |labels|
        invariant FindPointer(pointer, labels) == FindPointer(pointer, labels[i..])
      {
        if labels[i].start == pointer {
          return Some(labels[i]);
        }
        assert labels[i..][1..] == labels[i + 1..];
      }
      return None;
    }

    function View(p: nat, known: KnownLabels, traversing: bool): Cursor
      reads this, known
    {
      Cursor(p, names, size, bufferSize, known.spans, traversing)
    }

    /** One round of the parsing loop, starting at the length octet at `start`. */
    method Round(mem: bytes, end: nat, start: nat, known: KnownLabels, wasTraversing: bool)
      returns (refused: Option<Refusal>, done: bool, p: nat, traversing: bool)
      requires start <= end < |mem| && Inside(known.spans, end) && Inside(names, end)
      modifies this, known
      ensures Step(mem, end, old(View(start, known, wasTraversing))) ==
              if refused.Some? then Refused(refused.value)
              else if done then Done(View(p, known, traversing)) else Next(View(p, known, traversing))
    {
      hide NameText, PointerAt, FindPointer;
      refused, done, p, traversing := None, false, start, wasTraversing;
      var len := mem[p];
      if len == 0 {
        size := size + 1;
        if !traversing {
          bufferSize := bufferSize + 1;
        }
        if size > MAX_LABELS_SIZE {
          refused := Some(LabelHeaderException);
        } else if names == [] {
          refused := Some(NoLabels);
        } else {
          done := true;
        }
      } else if len < 64 {
        p := p + 1;
        var labelEnd := p + len;
        if labelEnd > end {
          refused := Some(LabelHeaderException);
          return;
        }
        size := size + len;
        if size > MAX_LABELS_SIZE {
          refused := Some(LabelHeaderException);
          return;
        }
        var label_ := Span(p, len);
        if !traversing {
          bufferSize := bufferSize + len + 1;
          known.spans := known.spans + [label_];
        }
        names := names + [label_];
        if !NameText(mem[p..labelEnd]) {
          refused := Some(IllegalLabel);
          return;
        }
        p := labelEnd;
      } else if len >= 0xC0 {
        if p + 1 >= end {
          refused := Some(LabelHeaderException);
          return;
        }
        size := size + 2;
        if size > MAX_LABELS_SIZE {
          refused := Some(LabelHeaderException);
          return;
        }
        if !traversing {
          bufferSize := bufferSize + 2;
        }
        var found := FindKnown(PointerAt(mem, p), known.spans);
        if found.None? {
          refused := Some(IllegalPointer);
          return;
        }
        names := names + [found.value];
        traversing := true;
        p := found.value.End();
      } else {
        refused := Some(LabelHeaderException);
      }
    }

    /** The parsing constructor: reads the name at `buffer`; `size` octets are left from there on. */
    method Parse(mem: bytes, buffer: nat, size: nat, known: KnownLabels) returns (refused: Option<Refusal>)
      requires buffer + size < |mem| && Inside(known.spans, buffer + size)
      requires names == [] && this.size == 0 && bufferSize == 0
      modifies this, known
      ensures size < 1 ==> refused == Some(LabelHeaderException)
      ensures size >= 1 ==>
                match Run(mem, buffer + size, Start(buffer, old(known.spans)))
                case Err(why) => refused == Some(why)
                case Ok(c) => refused == None && names == c.names && this.size == c.size &&
                              bufferSize == c.bufferSize && known.spans == c.known
    {
      if size < 1 {
        return Some(LabelHeaderException);
      }
      hide Step;
      var end := buffer + size;
      var p: nat := buffer;
      var traversing, done := false, false;
      ghost var start := Start(buffer, known.spans);
      while !done
        invariant p <= end && Inside(known.spans, end) && Inside(names, end) && this.size <= MAX_LABELS_SIZE
        invariant Run(mem, end, start) ==
                    if done then Ok(View(p, known, traversing)) else Run(mem, end, View(p, known, traversing))
        decreases MAX_LABELS_SIZE - this.size, !done
      {
        OneRound(mem, end, View(p, known, traversing));
        refused, done, p, traversing := Round(mem, end, p, known, traversing);
        if refused.Some? {
          return;
        }
      }
      return None;
    }
  }

  // ----- what an accepted name looks like -----

  /** The labels `spans` follow each other from p to q, each behind its length octet. */
  predicate Chain(mem: bytes, p: nat, spans: seq<Span>, q: nat)
    decreases |spans|
  {
    if spans == [] then p == q
    else
      p < |mem| && spans[0] == Span(p + 1, mem[p]) && 1 <= mem[p] <= 63 && spans[0].End() <= |mem| &&
      Chain(mem, spans[0].End(), spans[1..], q)
  }

  lemma {:induction false} ChainSnoc(mem: bytes, p: nat, spans: seq<Span>, q: nat, s: Span)
    requires Chain(mem, p, spans, q) && q < |mem| && s == Span(q + 1, mem[q]) && 1 <= mem[q] <= 63 && s.End() <= |mem|
    ensures Chain(mem, p, spans + [s], s.End())
    decreases |spans|
  {
    if spans == [] {
      assert (spans + [s])[1..] == [];
    } else {
      assert (spans + [s])[1..] == spans[1..] + [s];
      ChainSnoc(mem, spans[0].End(), spans[1..], q, s);
    }
  }

  /** In a chain every label but the last ends where the length octet of the next one stands. */
  lemma {:induction false} ChainLinks(mem: bytes, p: nat, spans: seq<Span>, q: nat, k: nat)
    requires Chain(mem, p, spans, q) && k < |spans|
    ensures 1 <= spans[k].start <= |mem| && mem[spans[k].start - 1] == spans[k].len && 1 <= spans[k].len <= 63
    ensures spans[k].End() == if k + 1 < |spans| then spans[k + 1].start - 1 else q
    ensures spans[k].End() <= |mem|
    decreases |spans|
  {
    if k > 0 {
      ChainLinks(mem, spans[0].End(), spans[1..], q, k - 1);
      assert spans[1..][k - 1] == spans[k];
    } else if |spans| > 1 {
      assert spans[1..][0] == spans[1];
    }
  }

  /** The positions from which the walk along these labels can be joined. */
  predicate OnChain(spans: seq<Span>, q: nat, pos: nat) {
    pos == q || exists k :: 0 <= k < |spans| && spans[k].start == pos + 1
  }

  /** Walking over a label of the chain leads to the next position of the chain. */
  lemma NextOnChain(mem: bytes, p: nat, spans: seq<Span>, q: nat, k: nat)
    requires Chain(mem, p, spans, q) && k < |spans|
    ensures OnChain(spans, q, spans[k].End())
  {
    ChainLinks(mem, p, spans, q, k);
    if k + 1 < |spans| {
      assert spans[k + 1].start == spans[k].End() + 1;
    }
  }

  /**
   * A pointer back into the name that contains it makes the walk come back to the pointer, again and
   * again, until the size budget is spent: such a name is always refused.
   */
  lemma {:induction false} PointerLoops(mem: bytes, end: nat, c: Cursor, p: nat, q: nat)
    requires c.p <= end < |mem| && Inside(c.known, end) && Inside(c.names, end) && c.traversing
    requires Chain(mem, p, c.known, q) && q <= end && mem[q] >= 0xC0 && OnChain(c.known, q, c.p)
    ensures Run(mem, end, c).Err?
    decreases if c.size <= MAX_LABELS_SIZE then MAX_LABELS_SIZE - c.size + 1 else 0
  {
    if c.p != q {
      var k :| 0 <= k < |c.known| && c.known[k].start == c.p + 1;
      ChainLinks(mem, p, c.known, q, k);
      NextOnChain(mem, p, c.known, q, k);
    } else {
      var s := if q + 2 <= |mem| then FindPointer(PointerAt(mem, q), c.known) else None;
      if s.Some? {
        var k :| 0 <= k < |c.known| && c.known[k] == s.value;
        NextOnChain(mem, p, c.known, q, k);
      }
    }
    hide Chain, OnChain;
    match Step(mem, end, c)
    case Refused(_) =>
    case Done(_) =>
    case Next(c') =>
      PointerLoops(mem, end, c', p, q);
  }

  /** A plain name: labels one behind the other from p to the terminator at q, within the limits. */
  predicate Plain(mem: bytes, end: nat, p: nat, names: seq<Span>, q: nat) {
    q <= end < |mem| && Inside(names, end) && AllText(mem, names) && names != [] &&
    Chain(mem, p, names, q) && mem[q] == 0 && q - p - |names| + 1 <= MAX_LABELS_SIZE
  }

  predicate AllText(mem: bytes, names: seq<Span>)
    requires Inside(names, |mem|)
  {
    forall k :: 0 <= k < |names| ==> NameText(Text(mem, names[k]))
  }

  /** The loop has met labels only, and counted them. */
  predicate InPlain(mem: bytes, end: nat, p: nat, c: Cursor) {
    c.p <= end < |mem| && Inside(c.names, end) && AllText(mem, c.names) && !c.traversing && c.known == c.names &&
    Chain(mem, p, c.names, c.p) && c.bufferSize == c.p - p && c.size == c.p - p - |c.names|
  }

  lemma StartInPlain(mem: bytes, end: nat, p: nat)
    requires p <= end < |mem|
    ensures InPlain(mem, end, p, Start(p, []))
  {
  }

  lemma InPlainStep(mem: bytes, end: nat, p: nat, c: Cursor)
    requires InPlain(mem, end, p, c) && Step(mem, end, c).Next? && mem[c.p] < 64
    ensures InPlain(mem, end, p, Step(mem, end, c).c)
  {
    hide NameText;
    ChainSnoc(mem, p, c.names, c.p, Span(c.p + 1, mem[c.p]));
  }

  lemma InPlainPointer(mem: bytes, end: nat, p: nat, c: Cursor)
    requires InPlain(mem, end, p, c) && Step(mem, end, c).Next? && mem[c.p] >= 64
    ensures Run(mem, end, Step(mem, end, c).c).Err?
  {
    hide NameText;
    var s := FindPointer(PointerAt(mem, c.p), c.known).value;
    var k :| 0 <= k < |c.known| && c.known[k] == s;
    NextOnChain(mem, p, c.known, c.p, k);
    PointerLoops(mem, end, Step(mem, end, c).c, p, c.p);
  }

  /**
   * Starting without known labels, every accepted name is plain: pointers are never accepted. The two
   * counters are the octets used and the octets of label text, with one for the terminator.
   */
  lemma {:induction false} AcceptedIsPlain(mem: bytes, end: nat, p: nat, c: Cursor)
    requires InPlain(mem, end, p, c) && Run(mem, end, c).Ok?
    ensures var r := Run(mem, end, c).value;
            Plain(mem, end, p, r.names, r.p) && !r.traversing && r.known == r.names &&
            r.bufferSize == r.p + 1 - p && r.size == r.p - p - |r.names| + 1
    decreases if c.size <= MAX_LABELS_SIZE then MAX_LABELS_SIZE - c.size + 1 else 0
  {
    hide NameText;
    OneRound(mem, end, c);
    var o := Step(mem, end, c);
    if o.Next? {
      hide Step;
      if mem[c.p] < 64 {
        InPlainStep(mem, end, p, c);
        AcceptedIsPlain(mem, end, p, o.c);
      } else {
        InPlainPointer(mem, end, p, c);
      }
    }
  }

  /** One label of a chain: it is taken unless the budget is spent or its text is not allowed. */
  lemma StepOnLabel(mem: bytes, end: nat, c: Cursor, s: Span)
    requires c.p <= end < |mem| && Inside(c.known, end) && Inside(c.names, end) && !c.traversing
    requires s == Span(c.p + 1, mem[c.p]) && 1 <= s.len <= 63 && s.End() <= end
    ensures var o := Step(mem, end, c);
            if c.size + s.len <= MAX_LABELS_SIZE && NameText(Text(mem, s)) then
              o == Next(Cursor(s.End(), c.names + [s], c.size + s.len, c.bufferSize + s.len + 1, c.known + [s], false))
            else o.Refused?
  {
    hide NameText, Text;
  }

  /** Along a chain of labels the loop succeeds exactly when the text is allowed and the budget suffices. */
  lemma {:induction false} RunAlongChain(mem: bytes, end: nat, c: Cursor, rest: seq<Span>, q: nat)
    requires c.p <= end < |mem| && Inside(c.known, end) && Inside(c.names, end) && !c.traversing
    requires q <= end && Inside(rest, end) && Chain(mem, c.p, rest, q) && mem[q] == 0
    ensures var r := Run(mem, end, c);
            var total := c.size + (q - c.p - |rest|) + 1;
            (r.Ok? <==> c.names + rest != [] && AllText(mem, rest) && total <= MAX_LABELS_SIZE) &&
            (r.Ok? ==> r.value.p == q && r.value.names == c.names + rest && r.value.known == c.known + rest &&
                       r.value.size == total && r.value.bufferSize == c.bufferSize + (q + 1 - c.p))
    decreases |rest|
  {
    hide NameText, Text;
    OneRound(mem, end, c);
    if rest == [] {
      assert c.names + rest == c.names && c.known + rest == c.known;
    } else {
      hide Step;
      ChainForward(mem, rest[0].End(), rest[1..], q);
      AllTextCons(mem, rest);
      StepOnLabel(mem, end, c, rest[0]);
      var o := Step(mem, end, c);
      if o.Next? {
        assert c.names + [rest[0]] + rest[1..] == c.names + rest && c.known + [rest[0]] + rest[1..] == c.known + rest;
        RunAlongChain(mem, end, o.c, rest[1..], q);
      }
    }
  }

  lemma InsideTail(spans: seq<Span>, end: nat)
    requires Inside(spans, end) && spans != []
    ensures Inside(spans[1..], end) && spans[0].End() <= end
  {
  }

  lemma InsideMore(spans: seq<Span>, end: nat, more: nat)
    requires Inside(spans, end) && end <= more
    ensures Inside(spans, more)
  {
  }

  /** The state of the loop behind these labels. */
  function Past(c: Cursor, rest: seq<Span>, q: nat): Cursor
    requires c.p + |rest| <= q
  {
    Cursor(q, c.names + rest, c.size + (q - c.p - |rest|), c.bufferSize + (q - c.p), c.known + rest, false)
  }

  lemma InsideBoth(a: seq<Span>, b: seq<Span>, end: nat)
    requires Inside(a, end) && Inside(b, end)
    ensures Inside(a + b, end)
  {
  }

  lemma PastOne(mem: bytes, end: nat, c: Cursor, rest: seq<Span>, q: nat)
    requires c.p <= end < |mem| && Inside(c.known, end) && Inside(c.names, end) && !c.traversing
    requires q <= end && Inside(rest, end) && Chain(mem, c.p, rest, q) && rest != []
    requires AllText(mem, rest) && c.size + (q - c.p - |rest|) <= MAX_LABELS_SIZE
    ensures Chain(mem, rest[0].End(), rest[1..], q) && rest[0].End() + 2 * (|rest| - 1) <= q
    ensures var c1 := Past(c, rest[..1], rest[0].End());
            Step(mem, end, c) == Next(c1) && Past(c1, rest[1..], q) == Past(c, rest, q)
  {
    hide NameText, Text, Step;
    ChainForward(mem, rest[0].End(), rest[1..], q);
    assert rest[0] in rest;
    StepOnLabel(mem, end, c, rest[0]);
    hide Chain, AllText, Inside;
    assert rest[..1] == [rest[0]];
    assert c.names + [rest[0]] + rest[1..] == c.names + rest && c.known + [rest[0]] + rest[1..] == c.known + rest;
  }

  /** The loop gets past allowed labels that the budget suffices for. */
  lemma {:induction false} RunPastChain(mem: bytes, end: nat, c: Cursor, rest: seq<Span>, q: nat)
    requires c.p <= end < |mem| && Inside(c.known, end) && Inside(c.names, end) && !c.traversing
    requires q <= end && Inside(rest, end) && Chain(mem, c.p, rest, q)
    requires AllText(mem, rest) && c.size + (q - c.p - |rest|) <= MAX_LABELS_SIZE
    ensures Inside(c.known + rest, end) && Inside(c.names + rest, end) && c.p + 2 * |rest| <= q
    ensures Run(mem, end, c) == Run(mem, end, Past(c, rest, q))
    decreases |rest|
  {
    hide NameText, Text, Step, Run, AllText, Chain, Inside;
    InsideBoth(c.known, rest, end);
    InsideBoth(c.names, rest, end);
    ChainForward(mem, c.p, rest, q);
    if rest == [] {
      NoLabelsLeft(mem, c, q);
    } else {
      OneRound(mem, end, c);
      PastOne(mem, end, c, rest, q);
      InsideMore(rest, end, |mem|);
      AllTextCons(mem, rest);
      InsideTail(rest, end);
      RunPastChain(mem, end, Past(c, rest[..1], rest[0].End()), rest[1..], q);
    }
  }

  lemma NoLabelsLeft(mem: bytes, c: Cursor, q: nat)
    requires Chain(mem, c.p, [], q) && !c.traversing
    ensures q == c.p && Past(c, [], q) == c
  {
    assert c.names + [] == c.names && c.known + [] == c.known;
  }

  lemma StepAt(mem: bytes, end: nat, c: Cursor)
    requires c.p <= end < |mem| && Inside(c.known, end) && Inside(c.names, end)
    ensures var o, len, q := Step(mem, end, c), mem[c.p], c.p;
            (len == 0 ==>
               if c.size + 1 > 255 then o == Refused(LabelHeaderException)
               else if c.names == [] then o == Refused(NoLabels)
               else o.Done?) &&
            (0 < len < 64 && (q + 1 + len > end || c.size + len > 255) ==> o == Refused(LabelHeaderException)) &&
            (0 < len < 64 && q + 1 + len <= end && c.size + len <= 255 && !NameText(mem[q + 1..q + 1 + len]) ==>
               o == Refused(IllegalLabel)) &&
            (64 <= len < 192 ==> o == Refused(LabelHeaderException))
  {
    hide NameText, FindPointer, PointerAt;
  }

  /** What a name that does not fit is refused with. */
  predicate DoesNotFit(r: Result<Cursor, Refusal>) {
    r == Err(LabelHeaderException) || r == Err(IllegalPointer)
  }

  /** On a label that was allowed before, the loop goes on, unless the budget is spent. */
  lemma StepBack(mem: bytes, end: nat, c: Cursor, p: nat, q: nat)
    requires c.p <= end < |mem| && Inside(c.known, end) && Inside(c.names, end) && c.traversing && c.names != []
    requires Chain(mem, p, c.known, q) && q <= end && AllText(mem, c.known) && OnChain(c.known, q, c.p)
    requires mem[q] >= 192
    ensures var o := Step(mem, end, c);
            o == Refused(LabelHeaderException) || o == Refused(IllegalPointer) ||
            (o.Next? && o.c.known == c.known && o.c.traversing && o.c.names != [] && OnChain(c.known, q, o.c.p))
  {
    hide NameText, PointerAt;
    if c.p != q {
      var k :| 0 <= k < |c.known| && c.known[k].start == c.p + 1;
      ChainLinks(mem, p, c.known, q, k);
      NextOnChain(mem, p, c.known, q, k);
      assert c.known[k] == Span(c.p + 1, mem[c.p]);
      assert NameText(Text(mem, c.known[k]));
    } else {
      var s := if q + 2 <= |mem| then FindPointer(PointerAt(mem, q), c.known) else None;
      if s.Some? {
        var k :| 0 <= k < |c.known| && c.known[k] == s.value;
        NextOnChain(mem, p, c.known, q, k);
      }
    }
    hide Chain, FindPointer, OnChain, AllText;
  }

  /** The walk back from a pointer ends because nothing fits any more, never for a label. */
  lemma {:induction false} LoopDoesNotFit(mem: bytes, end: nat, c: Cursor, p: nat, q: nat)
    requires c.p <= end < |mem| && Inside(c.known, end) && Inside(c.names, end) && c.traversing && c.names != []
    requires Chain(mem, p, c.known, q) && q <= end && AllText(mem, c.known) && OnChain(c.known, q, c.p)
    requires mem[q] >= 192
    ensures DoesNotFit(Run(mem, end, c))
    decreases if c.size <= MAX_LABELS_SIZE then MAX_LABELS_SIZE - c.size + 1 else 0
  {
    hide Chain, OnChain, AllText, Step, Run;
    OneRound(mem, end, c);
    StepBack(mem, end, c, p, q);
    var o := Step(mem, end, c);
    if o.Next? { LoopDoesNotFit(mem, end, o.c, p, q); }
  }

  /** A pointer behind the labels of the first name. */
  lemma PointerDoesNotFit(mem: bytes, end: nat, c: Cursor, p: nat)
    requires c.p <= end < |mem| && Inside(c.known, end) && Inside(c.names, end) && !c.traversing && c.names == c.known
    requires Chain(mem, p, c.known, c.p) && AllText(mem, c.known) && mem[c.p] >= 192
    ensures DoesNotFit(Run(mem, end, c))
  {
    hide PointerAt, NameText, AllText;
    OneRound(mem, end, c);
    var o := Step(mem, end, c);
    if o.Next? {
      var s := FindPointer(PointerAt(mem, c.p), c.known).value;
      var k :| 0 <= k < |c.known| && c.known[k] == s;
      NextOnChain(mem, p, c.known, c.p, k);
      hide Step, Run, Chain, FindPointer;
      LoopDoesNotFit(mem, end, o.c, p, c.p);
    }
  }

  /** What one round makes of the octet at which it stands. */
  lemma RoundAt(mem: bytes, end: nat, c: Cursor)
    requires c.p <= end < |mem| && Inside(c.known, end) && Inside(c.names, end)
    ensures var r, len, q := Run(mem, end, c), mem[c.p], c.p;
            (len == 0 ==>
               if c.size + 1 > 255 then r == Err(LabelHeaderException)
               else if c.names == [] then r == Err(NoLabels)
               else r.Ok?) &&
            (0 < len < 64 && (q + 1 + len > end || c.size + len > 255) ==> r == Err(LabelHeaderException)) &&
            (0 < len < 64 && q + 1 + len <= end && c.size + len <= 255 && !NameText(mem[q + 1..q + 1 + len]) ==>
               r == Err(IllegalLabel)) &&
            (64 <= len < 192 ==> r == Err(LabelHeaderException))
  {
    OneRound(mem, end, c);
    StepAt(mem, end, c);
    hide *;
  }

  /**
   * Which refusal it is: behind allowed labels within the budget of 255, the octet at q decides. No labels at
   * all, and a label with other characters, are told apart from all that does not fit.
   */
  lemma RefusedAt(mem: bytes, end: nat, p: nat, known: seq<Span>, rest: seq<Span>, q: nat)
    requires p <= end < |mem| && Inside(known, end)
    requires q <= end && Inside(rest, end) && Chain(mem, p, rest, q) && AllText(mem, rest) && q - p - |rest| <= 255
    ensures var r, len, used := Run(mem, end, Start(p, known)), mem[q], q - p - |rest|;
            (len == 0 ==>
               if used + 1 > 255 then r == Err(LabelHeaderException)
               else if rest == [] then r == Err(NoLabels)
               else r.Ok?) &&
            (0 < len < 64 && (q + 1 + len > end || used + len > 255) ==> r == Err(LabelHeaderException)) &&
            (0 < len < 64 && q + 1 + len <= end && used + len <= 255 && !NameText(mem[q + 1..q + 1 + len]) ==>
               r == Err(IllegalLabel)) &&
            (64 <= len < 192 ==> r == Err(LabelHeaderException)) &&
            (192 <= len && known == [] ==> DoesNotFit(r))
  {
    hide Run, Chain, AllText, NameText, Inside, Step, DoesNotFit;
    NoSpans(end);
    RunPastChain(mem, end, Start(p, known), rest, q);
    var c := Past(Start(p, known), rest, q);
    RoundAt(mem, end, c);
    assert [] + rest == rest;
    if mem[q] >= 192 && known == [] { PointerDoesNotFit(mem, end, c, p); }
  }

  lemma NoSpans(end: nat)
    ensures Inside([], end)
  {
  }

  lemma AllTextCons(mem: bytes, names: seq<Span>)
    requires Inside(names, |mem|) && names != []
    ensures Inside(names[1..], |mem|) &&
            (AllText(mem, names) <==> NameText(Text(mem, names[0])) && AllText(mem, names[1..]))
  {
    hide NameText, Text;
    assert forall k :: 1 <= k < |names| ==> names[k] == names[1..][k - 1];
  }

  lemma {:induction false} ChainForward(mem: bytes, p: nat, spans: seq<Span>, q: nat)
    requires Chain(mem, p, spans, q)
    ensures p + 2 * |spans| <= q
    decreases |spans|
  {
    if spans != [] { ChainForward(mem, spans[0].End(), spans[1..], q); }
  }

  lemma TextsTail(mem: bytes, spans: seq<Span>)
    requires Inside(spans, |mem|) && spans != []
    ensures Inside(spans[1..], |mem|) && Texts(mem, spans)[1..] == Texts(mem, spans[1..])
    ensures |Texts(mem, spans)| == |spans| && spans[0].End() <= |mem| && Texts(mem, spans)[0] == Text(mem, spans[0])
  {
  }

  lemma EncodeFirst(labels: seq<bytes>)
    requires labels != [] && ValidLabel(labels[0])
    ensures Encode(labels) == [|labels[0]|] + labels[0] + Encode(labels[1..])
  {
  }

  lemma NothingEncoded(mem: bytes, p: nat)
    requires p <= |mem|
    ensures Encode([]) == [] && Legal([]) && OctetsAt(mem, p, [])
  {
  }

  lemma NoTexts(mem: bytes)
    ensures Inside([], |mem|) && Texts(mem, []) == []
  {
  }

  lemma LegalCons(l: bytes, labels: seq<bytes>)
    requires ValidLabel(l) && Legal(labels)
    ensures Legal([l] + labels)
  {
  }

  /** The octets of one label. */
  lemma FirstText(mem: bytes, p: nat, s: Span)
    requires p < |mem| && s == Span(p + 1, mem[p]) && 1 <= mem[p] <= 63 && s.End() <= |mem|
    ensures var l := Text(mem, s);
            ValidLabel(l) && [mem[p]] == [|l|] && OctetsAt(mem, p, [mem[p]]) && OctetsAt(mem, p + 1, l)
  {
  }

  /** The octets of a chain are the encoding of its labels. */
  lemma {:induction false} ChainEncodes(mem: bytes, p: nat, spans: seq<Span>, q: nat)
    requires Chain(mem, p, spans, q) && Inside(spans, |mem|) && p <= |mem|
    ensures Legal(Texts(mem, spans)) && OctetsAt(mem, p, Encode(Texts(mem, spans))) &&
            q == p + |Encode(Texts(mem, spans))|
    decreases |spans|
  {
    hide Texts, Encode, OctetsAt, Inside;
    var labels := Texts(mem, spans);
    if spans == [] {
      NothingEncoded(mem, p);
      NoTexts(mem);
    } else {
      InsideTail(spans, |mem|);
      ChainEncodes(mem, spans[0].End(), spans[1..], q);
      hide Chain;
      TextsTail(mem, spans);
      FirstText(mem, p, spans[0]);
      LegalCons(labels[0], labels[1..]);
      assert labels == [labels[0]] + labels[1..];
      EncodeFirst(labels);
      OctetsJoin(mem, p, [mem[p]], labels[0]);
      OctetsJoin(mem, p, [mem[p]] + labels[0], Encode(labels[1..]));
    }
  }

  /** The ranges that encoded labels occupy. */
  function SpansOf(p: nat, labels: seq<bytes>): (r: seq<Span>)
    ensures |r| == |labels|
    decreases |labels|
  {
    if labels == [] then [] else [Span(p + 1, |labels[0]|)] + SpansOf(p + 1 + |labels[0]|, labels[1..])
  }

  /** The octets of encoded labels, taken apart. */
  lemma EncodedFirst(mem: bytes, p: nat, labels: seq<bytes>)
    requires Legal(labels) && labels != [] && OctetsAt(mem, p, Encode(labels))
    ensures p < |mem| && mem[p] == |labels[0]| && OctetsAt(mem, p + 1, labels[0])
    ensures OctetsAt(mem, p + 1 + |labels[0]|, Encode(labels[1..]))
    ensures |Encode(labels)| == 1 + |labels[0]| + |Encode(labels[1..])|
  {
    hide Encode;
    var l, rest := labels[0], labels[1..];
    EncodeFirst(labels);
    assert [|l|] + l + Encode(rest) == [|l|] + (l + Encode(rest));
    OctetsSplit(mem, p, [|l|], l + Encode(rest));
    OctetsSplit(mem, p + 1, l, Encode(rest));
    assert mem[p] == mem[p..p + 1][0];
  }

  /** Encoded labels form a chain. */
  lemma {:induction false} EncodedChain(mem: bytes, p: nat, labels: seq<bytes>)
    requires Legal(labels) && OctetsAt(mem, p, Encode(labels))
    ensures Chain(mem, p, SpansOf(p, labels), p + |Encode(labels)|) && Inside(SpansOf(p, labels), p + |Encode(labels)|)
    decreases |labels|
  {
    hide Encode;
    if labels == [] {
      NothingEncoded(mem, 0);
    } else {
      EncodedFirst(mem, p, labels);
      EncodedChain(mem, p + 1 + |labels[0]|, labels[1..]);
      var spans := SpansOf(p, labels);
      assert spans[1..] == SpansOf(p + 1 + |labels[0]|, labels[1..]);
      assert forall k :: 1 <= k < |spans| ==> spans[k] == spans[1..][k - 1];
    }
  }

  /** The labels of that chain are the encoded ones. */
  lemma {:induction false} EncodedTexts(mem: bytes, p: nat, labels: seq<bytes>, k: nat)
    requires Legal(labels) && OctetsAt(mem, p, Encode(labels)) && k < |labels|
    ensures SpansOf(p, labels)[k].End() <= |mem| && Text(mem, SpansOf(p, labels)[k]) == labels[k]
    decreases |labels|
  {
    EncodedFirst(mem, p, labels);
    if k > 0 {
      EncodedTexts(mem, p + 1 + |labels[0]|, labels[1..], k - 1);
    }
  }

  predicate AllNames(labels: seq<bytes>) {
    forall k :: 0 <= k < |labels| ==> NameText(labels[k])
  }

  lemma EncodedSpans(mem: bytes, p: nat, labels: seq<bytes>)
    requires Legal(labels) && OctetsAt(mem, p, Encode(labels))
    ensures var spans := SpansOf(p, labels);
            var q := p + |Encode(labels)|;
            Chain(mem, p, spans, q) && Inside(spans, q) && Texts(mem, spans) == labels &&
            (AllText(mem, spans) <==> AllNames(labels))
  {
    hide NameText, Text, Chain, Encode;
    EncodedChain(mem, p, labels);
    forall k | 0 <= k < |labels| ensures Text(mem, SpansOf(p, labels)[k]) == labels[k] {
      EncodedTexts(mem, p, labels, k);
    }
    assert Texts(mem, SpansOf(p, labels)) == labels;
  }

  /**
   * The parser undoes the printer: encoded labels, with the terminator behind them, are read back
   * exactly when there are labels, their text is allowed, and they hold at most 254 octets in all.
   */
  lemma ParserUndoesPrinter(mem: bytes, end: nat, p: nat, labels: seq<bytes>, known: seq<Span>)
    requires Legal(labels) && OctetsAt(mem, p, Encode(labels)) && p + |Encode(labels)| <= end < |mem|
    requires mem[p + |Encode(labels)|] == 0 && Inside(known, end)
    ensures var r := Run(mem, end, Start(p, known));
            (r.Ok? <==> labels != [] && AllNames(labels) && |Encode(labels)| - |labels| <= 254) &&
            (r.Ok? ==> Texts(mem, r.value.names) == labels && r.value.bufferSize == |Encode(labels)| + 1)
  {
    hide AllText, AllNames, Texts, Run, Chain, Encode, SpansOf;
    var spans := SpansOf(p, labels);
    EncodedSpans(mem, p, labels);
    assert [] + spans == spans;
    RunAlongChain(mem, end, Start(p, known), spans, p + |Encode(labels)|);
  }

  /** What the printer appends for a name that reuses nothing, the parser reads as exactly that name. */
  lemma ParserReadsPlainName(b: bytes, labels: seq<bytes>, rest: bytes, known: seq<Span>)
    requires Legal(labels) && rest != [] && Inside(known, |b| + |PlainName(labels)|)
    ensures var mem, end := b + PlainName(labels) + rest, |b| + |PlainName(labels)|;
            var r := Run(mem, end, Start(|b|, known));
            (r.Ok? <==> labels != [] && AllNames(labels) && |Encode(labels)| - |labels| <= 254) &&
            (r.Ok? ==> Texts(mem, r.value.names) == labels && r.value.bufferSize == |PlainName(labels)|)
  {
    hide Encode, Run, Texts, AllNames;
    var mem := b + PlainName(labels) + rest;
    assert mem[|b|..|b| + |Encode(labels)|] == Encode(labels);
    ParserUndoesPrinter(mem, |b| + |PlainName(labels)|, |b|, labels, known);
  }

  // ----- questions (section 4.1.2 of RFC 1035) -----

  datatype Question = Question(labels: seq<bytes>, labelSize: nat, nameSize: nat, qtype: uint16, qclass: uint16,
                               offset: nat)
  {
    function GetSize(): nat {
      nameSize + 4
    }

    function Asks(): Asked {
      Asked(labels, qtype, qclass)
    }
  }

  datatype Parsed = Parsed(question: Question, known: seq<Span>)

  /** What the constructor of a question makes of the octets from `buffer` on. */
  function QuestionAt(mem: bytes, buffer: nat, size: nat, known: seq<Span>, offset: nat): Result<Parsed, Refusal>
    requires buffer + size < |mem| && Inside(known, buffer + size)
  {
    if size < 1 then Err(LabelHeaderException)
    else
      match Run(mem, buffer + size, Start(buffer, known))
      case Err(why) => Err(why)
      case Ok(c) =>
        if c.bufferSize + 4 > size then Err(QuestionUnderflow)
        else
          var start := buffer + c.bufferSize;
          Ok(Parsed(Question(Texts(mem, c.names), c.size, c.bufferSize, GetU16(mem, start), GetU16(mem, start + 2),
                             offset),
                    c.known))
  }

  method ParseQuestion(mem: bytes, buffer: nat, size: nat, known: KnownLabels, offset: nat)
    returns (r: Result<Question, Refusal>)
    requires buffer + size < |mem| && Inside(known.spans, buffer + size)
    modifies known
    ensures var q := QuestionAt(mem, buffer, size, old(known.spans), offset);
            (q.Err? ==> r == Err(q.error)) &&
            (q.Ok? ==> r == Ok(q.value.question) && known.spans == q.value.known)
  {
    hide Run, Texts;
    var header := new LabelHeader();
    var refused := header.Parse(mem, buffer, size, known);
    if refused.Some? {
      return Err(refused.value);
    }
    var start := buffer + header.bufferSize;
    if start + 4 > buffer + size {
      return Err(QuestionUnderflow);
    }
    return Ok(Question(Texts(mem, header.names), header.size, header.bufferSize, GetU16(mem, start),
                       GetU16(mem, start + 2), offset));
  }

  /** The octets of a question, uncompressed. */
  function QuestionOctets(a: Asked): bytes {
    Encode(a.name) + [0] + U16(a.qtype) + U16(a.qclass)
  }

  /** The first question of a message, if accepted, is a plain one, and lies inside the message. */
  lemma FirstQuestion(mem: bytes, buffer: nat, size: nat, offset: nat)
    requires buffer + size < |mem| && QuestionAt(mem, buffer, size, [], offset).Ok?
    ensures var q := QuestionAt(mem, buffer, size, [], offset).value.question;
            Legal(q.labels) && q.labels != [] && AllNames(q.labels) &&
            OctetsAt(mem, buffer, QuestionOctets(q.Asks())) && q.GetSize() == |QuestionOctets(q.Asks())| <= size &&
            q.labelSize == |Encode(q.labels)| - |q.labels| + 1 <= 255
  {
    hide NameText, InPlain;
    var end := buffer + size;
    var c := Run(mem, end, Start(buffer, [])).value;
    StartInPlain(mem, end, buffer);
    AcceptedIsPlain(mem, end, buffer, Start(buffer, []));
    ChainEncodes(mem, buffer, c.names, c.p);
    var a := QuestionAt(mem, buffer, size, [], offset).value.question.Asks();
    QuestionJoin(mem, buffer, a);
  }

  lemma QuestionJoin(mem: bytes, p: nat, a: Asked)
    requires OctetsAt(mem, p, Encode(a.name)) && p + |Encode(a.name)| + 5 <= |mem|
    requires var q := p + |Encode(a.name)|;
             mem[q] == 0 && GetU16(mem, q + 1) == a.qtype && GetU16(mem, q + 3) == a.qclass
    ensures OctetsAt(mem, p, QuestionOctets(a))
  {
    var q := p + |Encode(a.name)|;
    OctetsJoin(mem, p, Encode(a.name), [0]);
    U16At(mem, q + 1, a.qtype);
    OctetsJoin(mem, p, Encode(a.name) + [0], U16(a.qtype));
    U16At(mem, q + 3, a.qclass);
    OctetsJoin(mem, p, Encode(a.name) + [0] + U16(a.qtype), U16(a.qclass));
  }

  /** Parsing the octets of an accepted question again, with more labels known, gives the same question. */
  lemma QuestionAgain(mem: bytes, buffer: nat, size: nat, known: seq<Span>, offset: nat, offset': nat)
    requires buffer + size < |mem| && QuestionAt(mem, buffer, size, [], offset).Ok? && Inside(known, buffer + size)
    ensures var r := QuestionAt(mem, buffer, size, known, offset');
            r.Ok? && r.value.question == QuestionAt(mem, buffer, size, [], offset).value.question.(offset := offset') &&
            Inside(r.value.known, buffer + size)
  {
    hide Run, Chain, AllText, InPlain, Texts, GetU16;
    var end := buffer + size;
    var c := Run(mem, end, Start(buffer, [])).value;
    StartInPlain(mem, end, buffer);
    AcceptedIsPlain(mem, end, buffer, Start(buffer, []));
    assert [] + c.names == c.names;
    RunAlongChain(mem, end, Start(buffer, known), c.names, c.p);
  }
}
