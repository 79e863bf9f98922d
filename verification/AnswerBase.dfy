/** Writing resource records into a reply, with names compressed against everything written before. */
module Answers {
  import opened Bytes
  import opened Compression
  import opened DomainNames
  import opened Messages
  import opened Zones

  /**
   * A bound on names that keeps every offset written before the length of the reply is looked at within
   * the reach of a pointer: three such names behind 512 octets and the fixed fields.
   */
  const MAX_NAME: nat := 5000

  /** Labels of 1 to 63 octets, as in section 2.3.4 of RFC 1035; in all, within the reach of a pointer. */
  predicate LegalName(name: bytes) {
    Legal(Fragments(name)) && |Encode(Fragments(name))| + 1 <= MAX_NAME
  }

  /** The index invariant: every offset in the index is tagged and starts a complete name. */
  predicate IndexOk(b: bytes, hole: nat, labels: seq<uint16>) {
    forall k :: 0 <= k < |labels| ==> Indexed(b, hole, labels[k])
  }

  predicate Indexed(b: bytes, hole: nat, ptr: uint16) {
    0xC000 <= ptr && NameAt(b, hole, Offset(ptr), Offset(ptr)).Some?
  }

  /** The name an indexed offset stands for. */
  function NameOf(b: bytes, hole: nat, ptr: uint16): seq<bytes>
    requires Indexed(b, hole, ptr)
  {
    NameAt(b, hole, Offset(ptr), Offset(ptr)).value
  }

  /** Where the comparison of a stored name with `frags` ends: the value of currFrag. */
  function Reached(stored: seq<bytes>, frags: seq<bytes>): int {
    var k := CommonSuffix(stored, frags);
    if k == |frags| then |frags| - |stored| else |frags| - k
  }

  /** The stored name shares labels with `frags` and does not strictly extend it. */
  predicate Usable(stored: seq<bytes>, frags: seq<bytes>) {
    0 <= Reached(stored, frags) < |frags|
  }

  /** Usable, in terms of the names: some label is shared, and `frags` is no proper suffix of the stored name. */
  lemma UsableIs(stored: seq<bytes>, frags: seq<bytes>)
    ensures Usable(stored, frags) <==>
              frags != [] && stored != [] && stored[|stored| - 1] == frags[|frags| - 1] &&
              !(|frags| < |stored| && stored[|stored| - |frags|..] == frags)
    ensures Usable(stored, frags) ==> Reached(stored, frags) == |frags| - CommonSuffix(stored, frags)
  {
    CommonSuffixIs(stored, frags);
    var k := CommonSuffix(stored, frags);
    assert frags[|frags| - |frags|..] == frags;
    if |frags| < |stored| && k < |frags| {
      var tail := stored[|stored| - |frags|..];
      assert tail[|frags| - k - 1] == stored[|stored| - k - 1];
    }
  }

  /** The outcome of comparing a stored name with `frags` from the right. */
  predicate Compared(b: bytes, hole: nat, stored: seq<bytes>, frags: seq<bytes>, before: uint16,
                     same: bool, curr: int, best: uint16) {
    var k := CommonSuffix(stored, frags);
    curr == Reached(stored, frags) &&
    same == (k == |frags| || k == |stored|) &&
    (k == 0 ==> best == before) &&
    (k > 0 ==> best < MAX_OFFSET && NameAt(b, hole, best, best) == Some(frags[|frags| - k..]))
  }

  /** From the outcome for the rest of a run to the outcome with the label in front of it. */
  lemma CompareStep(b: bytes, hole: nat, run: nat, pos: uint16, name: bytes, rest: seq<bytes>, frags: seq<bytes>,
                    before: uint16, same: bool, curr: int, best: uint16)
    requires run <= pos < MAX_OFFSET && NameAt(b, hole, run, pos) == Some([name] + rest)
    requires Compared(b, hole, rest, frags, before, same, curr, best)
    ensures !same ==> Compared(b, hole, [name] + rest, frags, before, false, curr, best)
    ensures same && curr <= 0 ==> Compared(b, hole, [name] + rest, frags, before, true, curr - 1, best)
    ensures same && 0 < curr <= |frags| && frags[curr - 1] == name ==>
              Compared(b, hole, [name] + rest, frags, before, true, curr - 1, pos)
    ensures same && 0 < curr <= |frags| && frags[curr - 1] != name ==>
              Compared(b, hole, [name] + rest, frags, before, false, curr, best)
    ensures same ==> curr <= |frags|
  {
    hide NameAt, CommonSuffix;
    CommonSuffixCons(name, rest, frags);
    CommonSuffixIs(rest, frags);
    if same && 0 < curr <= |frags| && frags[curr - 1] == name {
      assert rest[0..] == rest;
      assert frags[curr - 1..] == [name] + frags[curr..];
      LaterRun(b, hole, run, pos, pos);
    }
  }

  lemma CompareRoot(b: bytes, hole: nat, frags: seq<bytes>, before: uint16)
    ensures Compared(b, hole, [], frags, before, true, |frags|, before)
  {
  }

  /** What stands where a name starts: the end, a label and the rest, or a pointer to an earlier run. */
  lemma EntryStep(b: bytes, hole: nat, run: nat, pos: nat)
    requires run <= pos && NameAt(b, hole, run, pos).Some?
    ensures pos < |b|
    ensures b[pos] == 0 ==> NameAt(b, hole, run, pos) == Some([])
    ensures 0 < b[pos] < 64 ==>
              pos + 1 + b[pos] < |b| && NameAt(b, hole, run, pos + 1 + b[pos]).Some? &&
              NameAt(b, hole, run, pos).value ==
                [b[pos + 1..pos + 1 + b[pos]]] + NameAt(b, hole, run, pos + 1 + b[pos]).value
    ensures b[pos] >= 64 ==>
              b[pos] >= 0xC0 && pos + 2 <= |b| &&
              var target := Offset(GetU16(b, pos));
              target < run && NameAt(b, hole, target, target) == NameAt(b, hole, run, pos)
  {
  }

  /** label + len + 1 in 16 bits: the tag of a pointer stays out of the way. */
  lemma NextOffset(entry: uint16, len: nat)
    requires Offset(entry) + len + 1 < MAX_OFFSET
    ensures Offset((entry + len + 1) % 0x1_0000) == Offset(entry) + len + 1
  {
  }

  method ReverseCompare(entry: uint16, frags: seq<bytes>, currFrag: int, start: bytes, bestMatchedOffset: uint16,
                        ghost hole: nat, ghost run: nat)
    returns (same: bool, curr: int, best: uint16)
    requires |start| <= MAX_OFFSET && run <= Offset(entry) && NameAt(start, hole, run, Offset(entry)).Some?
    ensures Compared(start, hole, NameAt(start, hole, run, Offset(entry)).value, frags, bestMatchedOffset,
                     same, curr, best)
    decreases run, |start| - Offset(entry)
  {
    hide Compared, CommonSuffix, NameAt;
    var labelOffset := Offset(entry);
    EntryStep(start, hole, run, labelOffset);
    var len := start[labelOffset];
    if len == 0 {
      CompareRoot(start, hole, frags, bestMatchedOffset);
      return true, |frags|, bestMatchedOffset;
    }
    if len < 64 {
      var myName := start[labelOffset + 1..labelOffset + 1 + len];
      var next: uint16 := (entry + len + 1) % 0x1_0000;
      NextOffset(entry, len);
      ghost var rest := NameAt(start, hole, run, Offset(next)).value;
      same, curr, best := ReverseCompare(next, frags, currFrag, start, bestMatchedOffset, hole, run);
      CompareStep(start, hole, run, labelOffset, myName, rest, frags, bestMatchedOffset, same, curr, best);
      if same {
        curr := curr - 1;
        if curr < 0 {
          return true, curr, best;
        }
        if frags[curr] == myName {
          return true, curr, labelOffset;
        }
        curr := curr + 1;
        return false, curr, best;
      }
    } else if len >= 0xC0 {
      var pointer := Offset(GetU16(start, labelOffset));
      same, curr, best := ReverseCompare(pointer, frags, currFrag, start, bestMatchedOffset, hole, pointer);
      return;
    }
    return false, curr, best;
  }

  /** currFrag after comparing `frags` with each indexed name. */
  function ReachedAll(b: bytes, hole: nat, labels: seq<uint16>, frags: seq<bytes>): (all: seq<int>)
    requires IndexOk(b, hole, labels)
    ensures |all| == |labels|
    ensures forall k :: 0 <= k < |all| ==> all[k] == Reached(NameOf(b, hole, labels[k]), frags)
  {
    seq(|labels|, k requires 0 <= k < |labels| => Reached(NameOf(b, hole, labels[k]), frags))
  }

  /** `pos` is the least usable value among the first i. */
  predicate Least(all: seq<int>, i: nat, count: nat, pos: nat) {
    i <= |all| && pos < count &&
    (exists k :: 0 <= k < i && all[k] == pos) &&
    (forall k :: 0 <= k < i && 0 <= all[k] < count ==> pos <= all[k])
  }

  predicate NoneUsable(all: seq<int>, i: nat, count: nat) {
    i <= |all| && forall k :: 0 <= k < i ==> !(0 <= all[k] < count)
  }

  lemma LeastStep(all: seq<int>, i: nat, count: nat, found: bool, pos: nat)
    requires i < |all|
    requires if found then Least(all, i, count, pos) else NoneUsable(all, i, count)
    ensures 0 <= all[i] < count && (!found || all[i] < pos) ==> Least(all, i + 1, count, all[i])
    ensures !(0 <= all[i] < count && (!found || all[i] < pos)) ==>
              if found then Least(all, i + 1, count, pos) else NoneUsable(all, i + 1, count)
    ensures 0 <= all[i] < count && all[i] == 0 ==> Least(all, |all|, count, 0)
  {
    if found {
      var k :| 0 <= k < i && all[k] == pos;
      assert 0 <= k < i + 1 && all[k] == pos;
    }
  }

  /** The best continuation of `frags` among all indexed names: least fragment first, whole match ends the search. */
  method SearchForDomainName(frags: seq<bytes>, labelStartPoints: seq<uint16>, start: bytes, ghost hole: nat)
    returns (found: bool, labelStart: uint16, pos: nat)
    requires |start| <= MAX_OFFSET && IndexOk(start, hole, labelStartPoints)
    ensures var all := ReachedAll(start, hole, labelStartPoints, frags);
            if found then Least(all, |all|, |frags|, pos) else NoneUsable(all, |all|, |frags|)
    ensures found ==> labelStart < MAX_OFFSET && NameAt(start, hole, labelStart, labelStart) == Some(frags[pos..])
  {
    found, labelStart, pos := false, 0, 0;
    ghost var all := ReachedAll(start, hole, labelStartPoints, frags);
    for i := 0 to |labelStartPoints|
      invariant if found then Least(all, i, |frags|, pos) else NoneUsable(all, i, |frags|)
      invariant found ==> labelStart < MAX_OFFSET && pos < |frags|
                          && NameAt(start, hole, labelStart, labelStart) == Some(frags[pos..])
    {
      var entry := labelStartPoints[i];
      assert Indexed(start, hole, entry);
      var _, currFrag, lastMatchedOffset := ReverseCompare(entry, frags, -1, start, 0, hole, Offset(entry));
      assert currFrag == all[i];
      LeastStep(all, i, |frags|, found, pos);
      if 0 <= currFrag < |frags| {
        if !found || currFrag < pos {
          UsableIs(NameOf(start, hole, entry), frags);
          found, pos, labelStart := true, currFrag, lastMatchedOffset;
          if pos == 0 {
            return;
          }
        }
      }
    }
  }

  // ----- writing names -----

  /** The octets of a name: fragments up to `pos`, then a pointer or the terminator. */
  function Written(frags: seq<bytes>, found: bool, pos: nat, target: uint16): bytes
    requires pos <= |frags|
  {
    Encode(frags[..pos]) + if found then U16(Tagged(target)) else [0]
  }

  /** What was found for the tail of a name may replace that tail. */
  predicate Replaces(b: bytes, hole: nat, frags: seq<bytes>, found: bool, pos: nat, target: uint16) {
    if found then pos < |frags| && target < MAX_OFFSET && NameAt(b, hole, target, target) == Some(frags[pos..])
    else pos == |frags|
  }

  /** A pointer at `e`, in a run that began where the buffer used to end. */
  lemma ReadPointer(b: bytes, hole: nat, b': bytes, e: nat, target: uint16)
    requires HEADER_SIZE <= |b| <= e && (hole == NO_HOLE || hole + 2 <= |b|) && b <= b' && |b'| == e + 2
    requires b'[e] == U16(Tagged(target))[0] && b'[e + 1] == U16(Tagged(target))[1]
    requires target < MAX_OFFSET && NameAt(b, hole, target, target).Some?
    ensures NameAt(b', hole, |b|, e) == NameAt(b, hole, target, target) && NameEnd(b', e) == |b'|
  {
    assert target < |b| && NameAt(b', hole, target, target) == NameAt(b, hole, target, target) by {
      assert Readable(b, hole, target, 1);
      Frame(b, hole, b', hole, target, target);
    }
    assert GetU16(b', e) == Tagged(target) && b'[e] >= 0xC0;
    assert Readable(b', hole, e, 2) && Readable(b', hole, e, 1);
  }

  lemma ReadTail(b: bytes, hole: nat, mid: bytes, frags: seq<bytes>, found: bool, pos: nat, target: uint16)
    requires HEADER_SIZE <= |b| && (hole == NO_HOLE || hole + 2 <= |b|)
    requires Replaces(b, hole, frags, found, pos, target)
    ensures var b' := b + mid + if found then U16(Tagged(target)) else [0];
            NameAt(b', hole, |b|, |b| + |mid|) == Some(frags[pos..]) && NameEnd(b', |b| + |mid|) == |b'|
  {
    var e := |b| + |mid|;
    if found {
      ReadPointer(b, hole, b + mid + U16(Tagged(target)), e, target);
    } else {
      var b' := b + mid + [0];
      assert Readable(b', hole, e, 1) && b'[e] == 0 && |b'| == e + 1;
      assert frags[pos..] == [];
    }
  }

  lemma ReadLegal(b: bytes, hole: nat, frags: seq<bytes>, found: bool, pos: nat, target: uint16)
    requires HEADER_SIZE <= |b| && (hole == NO_HOLE || hole + 2 <= |b|)
    requires Replaces(b, hole, frags, found, pos, target) && Legal(frags)
    ensures var b' := b + Written(frags, found, pos, target);
            NameAt(b', hole, |b|, |b|) == Some(frags) && NameEnd(b', |b|) == |b'|
  {
    hide NameAt, NameEnd;
    var mid := Encode(frags[..pos]);
    var tail: bytes := if found then U16(Tagged(target)) else [0];
    var b' := b + mid + tail;
    assert b' == b + Written(frags, found, pos, target);
    ReadTail(b, hole, mid, frags, found, pos, target);
    AfterPrefix(b, hole, b', frags[..pos], tail, frags[pos..]);
    assert frags == frags[..pos] + frags[pos..];
  }

  lemma AfterPrefix(b: bytes, hole: nat, b': bytes, front: seq<bytes>, tail: bytes, rest: seq<bytes>)
    requires HEADER_SIZE <= |b| && (hole == NO_HOLE || hole + 2 <= |b|) && Legal(front)
    requires b' == b + Encode(front) + tail
    requires NameAt(b', hole, |b|, |b| + |Encode(front)|) == Some(rest) && NameEnd(b', |b| + |Encode(front)|) == |b'|
    ensures NameAt(b', hole, |b|, |b|) == Some(front + rest) && NameEnd(b', |b|) == |b'|
  {
    hide NameAt, NameEnd;
    assert OctetsAt(b', |b|, Encode(front));
    ReadEncoded(b', hole, |b|, |b|, front);
  }

  /** Appended octets form exactly the intended name if and only if every fragment is a legal label. */
  lemma ReadWritten(b: bytes, hole: nat, frags: seq<bytes>, found: bool, pos: nat, target: uint16)
    requires HEADER_SIZE <= |b| && (hole == NO_HOLE || hole + 2 <= |b|)
    requires Replaces(b, hole, frags, found, pos, target)
    ensures var b' := b + Written(frags, found, pos, target);
            (NameAt(b', hole, |b|, |b|) == Some(frags) <==> Legal(frags)) &&
            (Legal(frags) ==> NameEnd(b', |b|) == |b'|)
  {
    hide NameAt, NameEnd, Written, Legal;
    var b' := b + Written(frags, found, pos, target);
    if NameAt(b', hole, |b|, |b|) == Some(frags) {
      ReadNamesAreLegal(b', hole, |b|, |b|);
    }
    if Legal(frags) {
      ReadLegal(b, hole, frags, found, pos, target);
    }
  }

  /** A pointer always saves room. */
  lemma WrittenSize(b: bytes, hole: nat, frags: seq<bytes>, found: bool, pos: nat, target: uint16)
    requires Replaces(b, hole, frags, found, pos, target)
    ensures var n := |Written(frags, found, pos, target)|;
            if found then n < |Encode(frags)| + 1 else n == |Encode(frags)| + 1
  {
    if found {
      ReadNamesAreLegal(b, hole, target, target);
      assert frags == frags[..pos] + frags[pos..];
      EncodeConcat(frags[..pos], frags[pos..]);
      EncodeSize(frags[pos..]);
    } else {
      assert frags[..pos] == frags;
    }
  }

  // ----- how much room a name takes -----

  /** The names that the index stands for. */
  ghost function NamesOf(b: bytes, hole: nat, labels: seq<uint16>): set<seq<bytes>>
    requires IndexOk(b, hole, labels)
  {
    set k | 0 <= k < |labels| :: NameOf(b, hole, labels[k])
  }

  /** The first fragment from i on at which a pointer can take over from known names; |frags| if there is none. */
  ghost function Best(known: set<seq<bytes>>, frags: seq<bytes>, i: nat): (pos: nat)
    requires i <= |frags|
    ensures i <= pos <= |frags|
    ensures pos < |frags| ==> exists n :: n in known && Reached(n, frags) == pos
    ensures forall n :: n in known ==> !(i <= Reached(n, frags) < pos)
    decreases |frags| - i
  {
    if i == |frags| || exists n :: n in known && Reached(n, frags) == i then i else Best(known, frags, i + 1)
  }

  /** The octets that a name takes in a reply that knows these names. */
  ghost function NameRoom(known: set<seq<bytes>>, frags: seq<bytes>): nat {
    var pos := Best(known, frags, 0);
    if pos < |frags| then |Encode(frags[..pos])| + 2 else |Encode(frags)| + 1
  }

  /** The search through the index finds the best place of all. */
  lemma BestIs(b: bytes, hole: nat, labels: seq<uint16>, frags: seq<bytes>, pos: nat)
    requires IndexOk(b, hole, labels)
    ensures var all, best := ReachedAll(b, hole, labels, frags), Best(NamesOf(b, hole, labels), frags, 0);
            (NoneUsable(all, |all|, |frags|) ==> best == |frags|) && (Least(all, |all|, |frags|, pos) ==> best == pos)
  {
    hide NameAt, Reached;
    var all, known := ReachedAll(b, hole, labels, frags), NamesOf(b, hole, labels);
    var best := Best(known, frags, 0);
    if best < |frags| {
      var n :| n in known && Reached(n, frags) == best;
      var k :| 0 <= k < |labels| && NameOf(b, hole, labels[k]) == n;
      assert all[k] == best;
    }
    if Least(all, |all|, |frags|, pos) {
      var k :| 0 <= k < |all| && all[k] == pos;
      assert NameOf(b, hole, labels[k]) in known;
    }
  }

  /** The reply buffer of one request, with the offsets of the names it holds. */
  class Reply {
    var buffer: bytes
    var labels: seq<uint16>
    // The RDLENGTH field that is still to be patched, if any.
    ghost var hole: nat

    constructor ()
      ensures buffer == [] && labels == [] && hole == NO_HOLE
    {
      buffer, labels, hole := [], [], NO_HOLE;
    }

    ghost predicate Valid()
      reads this
    {
      HEADER_SIZE <= |buffer| && IndexOk(buffer, hole, labels) &&
      (hole == NO_HOLE || (HEADER_SIZE <= hole && hole + 2 <= |buffer|))
    }

    /** The names that can be pointed at. */
    ghost function Names(): set<seq<bytes>>
      requires Valid()
      reads this
    {
      NamesOf(buffer, hole, labels)
    }

    /** Octets at the end do not disturb the index. */
    method Append(x: bytes)
      requires Valid()
      modifies this`buffer
      ensures Valid() && buffer == old(buffer) + x && Names() == old(Names())
    {
      ghost var b := buffer;
      buffer := buffer + x;
      StillIndexed(b, hole, buffer, hole, labels);
    }
  }

  lemma StillIndexed(b: bytes, hole: nat, b': bytes, hole': nat, labels: seq<uint16>)
    requires IndexOk(b, hole, labels) && |b| <= |b'|
    requires forall i :: HEADER_SIZE <= i < |b| && !(hole <= i < hole + 2) ==> b'[i] == b[i]
    requires hole' == hole || hole' + 2 <= HEADER_SIZE || |b| <= hole'
    ensures IndexOk(b', hole', labels) && NamesOf(b', hole', labels) == NamesOf(b, hole, labels)
  {
    hide NameAt;
    forall k | 0 <= k < |labels|
      ensures Indexed(b', hole', labels[k]) && NameOf(b', hole', labels[k]) == NameOf(b, hole, labels[k])
    {
      assert Indexed(b, hole, labels[k]);
      Frame(b, hole, b', hole', Offset(labels[k]), Offset(labels[k]));
    }
  }

  lemma NothingEncoded()
    ensures Encode([]) == []
  {
  }

  lemma OneEncoded(l: bytes)
    ensures Encode([l]) == [|l| % 0x100] + l
  {
    assert [l][1..] == [];
  }

  /** Length octet and text of each fragment. */
  method WriteFragments(reply: Reply, frags: seq<bytes>)
    modifies reply`buffer
    ensures reply.buffer == old(reply.buffer) + Encode(frags)
  {
    hide Encode;
    NothingEncoded();
    assert frags[..0] == [];
    for i := 0 to |frags|
      invariant reply.buffer == old(reply.buffer) + Encode(frags[..i])
    {
      assert frags[..i + 1] == frags[..i] + [frags[i]];
      EncodeConcat(frags[..i], [frags[i]]);
      OneEncoded(frags[i]);
      reply.buffer := reply.buffer + [|frags[i]| % 0x100];
      reply.buffer := reply.buffer + frags[i];
    }
    assert frags[..|frags|] == frags;
  }

  /**
   * Appends a name; the largest suffix that the index can supply becomes a pointer, written in place
   * of the fragments from `pos` on.
   */
  method WriteName(reply: Reply, domainName: bytes) returns (size: nat, ghost pos: nat)
    requires reply.Valid() && |reply.buffer| + |Encode(Fragments(domainName))| + 1 <= MAX_OFFSET
    modifies reply`buffer
    ensures reply.Valid() && old(reply.buffer) <= reply.buffer && size == |reply.buffer| - |old(reply.buffer)|
    ensures var frags := Fragments(domainName);
            var start := |old(reply.buffer)|;
            (NameAt(reply.buffer, reply.hole, start, start) == Some(frags) <==> Legal(frags)) &&
            (Legal(frags) ==> NameEnd(reply.buffer, start) == |reply.buffer|)
    ensures var frags := Fragments(domainName);
            var all := ReachedAll(old(reply.buffer), reply.hole, reply.labels, frags);
            if NoneUsable(all, |all|, |frags|) then
              size == |Encode(frags)| + 1 && reply.buffer == old(reply.buffer) + PlainName(frags)
            else Least(all, |all|, |frags|, pos) && size == |Encode(frags[..pos])| + 2 < |Encode(frags)| + 1
    ensures size == NameRoom(old(reply.Names()), Fragments(domainName)) && reply.Names() == old(reply.Names())
  {
    hide NameAt, NameEnd, IndexOk, Fragments, ReachedAll, NamesOf, Best;
    var frags := ToFraments(domainName);
    ghost var before := reply.buffer;
    var startSize := |reply.buffer|;
    var useCompression, target, fragIndex := SearchForDomainName(frags, reply.labels, reply.buffer, reply.hole);
    if !useCompression {
      fragIndex := |frags|;
    }
    pos := fragIndex;
    BestIs(before, reply.hole, reply.labels, frags, pos);
    WriteFragments(reply, frags[..fragIndex]);
    if useCompression {
      reply.buffer := reply.buffer + U16(Tagged(target));
    } else {
      reply.buffer := reply.buffer + [0];
    }
    assert reply.buffer == before + Written(frags, useCompression, fragIndex, target);
    assert frags[..|frags|] == frags;
    WrittenSize(before, reply.hole, frags, useCompression, fragIndex, target);
    ReadWritten(before, reply.hole, frags, useCompression, fragIndex, target);
    StillIndexed(before, reply.hole, reply.buffer, reply.hole, reply.labels);
    size := |reply.buffer| - startSize;
  }

  /** Some indexed offset stands for this name. */
  predicate Known(b: bytes, hole: nat, labels: seq<uint16>, name: seq<bytes>) {
    exists k :: 0 <= k < |labels| && Indexed(b, hole, labels[k]) && NameOf(b, hole, labels[k]) == name
  }

  method AddLabelForCompression(reply: Reply, offset: uint16)
    requires reply.Valid() && NameAt(reply.buffer, reply.hole, Offset(offset), Offset(offset)).Some?
    modifies reply`labels
    ensures reply.Valid() && old(reply.labels) <= reply.labels
    ensures Known(reply.buffer, reply.hole, reply.labels,
                  NameAt(reply.buffer, reply.hole, Offset(offset), Offset(offset)).value)
    ensures reply.Names() ==
            old(reply.Names()) + {NameAt(reply.buffer, reply.hole, Offset(offset), Offset(offset)).value}
  {
    var myOffset := Tagged(offset);
    var ofs := Offset(myOffset);
    var dstOffset := if reply.buffer[ofs] >= 0xC0 then GetU16(reply.buffer, ofs) else myOffset;
    if dstOffset in reply.labels {
      var k :| 0 <= k < |reply.labels| && reply.labels[k] == dstOffset;
      assert Indexed(reply.buffer, reply.hole, reply.labels[k]);
      assert NameOf(reply.buffer, reply.hole, reply.labels[k]) in reply.Names();
      return;
    }
    ghost var before := reply.labels;
    reply.labels := reply.labels + [myOffset];
    var last := |reply.labels| - 1;
    assert Indexed(reply.buffer, reply.hole, reply.labels[last]);
    NamesSnocOf(reply.buffer, reply.hole, before, myOffset);
  }

  lemma NamesSnocOf(b: bytes, hole: nat, labels: seq<uint16>, ptr: uint16)
    requires IndexOk(b, hole, labels) && Indexed(b, hole, ptr)
    ensures IndexOk(b, hole, labels + [ptr])
    ensures NamesOf(b, hole, labels + [ptr]) == NamesOf(b, hole, labels) + {NameOf(b, hole, ptr)}
  {
    hide NameAt;
    var more := labels + [ptr];
    assert forall k :: 0 <= k < |labels| ==> more[k] == labels[k];
    assert more[|labels|] == ptr;
    forall n | n in NamesOf(b, hole, labels) + {NameOf(b, hole, ptr)} ensures n in NamesOf(b, hole, more) {
      if n != NameOf(b, hole, ptr) {
        var k :| 0 <= k < |labels| && NameOf(b, hole, labels[k]) == n;
        assert NameOf(b, hole, more[k]) == n;
      } else {
        assert NameOf(b, hole, more[|labels|]) == n;
      }
    }
  }

  /** A relative name continues with the labels of the zone it is written for; an absolute one does not. */
  function Qualified(domainName: bytes, zone: seq<bytes>): bytes {
    if domainName != [] && domainName[|domainName| - 1] != DOT then Join([domainName] + zone) else domainName
  }

  method Qualify(domainName: bytes, zone: seq<bytes>) returns (myName: bytes)
    ensures myName == Qualified(domainName, zone)
  {
    myName := domainName;
    if domainName != [] && domainName[|domainName| - 1] != DOT {
      for i := 0 to |zone|
        invariant myName == Join([domainName] + zone[..i])
      {
        JoinSnoc([domainName] + zone[..i], zone[i]);
        assert [domainName] + zone[..i + 1] == [domainName] + zone[..i] + [zone[i]];
        myName := myName + [DOT];
        myName := myName + zone[i];
      }
      assert zone[..|zone|] == zone;
    }
  }

  /** Appends a name, qualified by a zone, and enters it in the index. `zone` lists the labels from the zone up. */
  method WriteDomainName(reply: Reply, domainName: bytes, zone: seq<bytes>) returns (size: nat)
    requires reply.Valid() && LegalName(Qualified(domainName, zone)) && |reply.buffer| + MAX_NAME <= MAX_OFFSET
    modifies reply`buffer, reply`labels
    ensures reply.Valid() && old(reply.buffer) <= reply.buffer && old(reply.labels) <= reply.labels
    ensures size == |reply.buffer| - |old(reply.buffer)| <= MAX_NAME
    ensures var start := |old(reply.buffer)|;
            var frags := Fragments(Qualified(domainName, zone));
            NameAt(reply.buffer, reply.hole, start, start) == Some(frags) &&
            NameEnd(reply.buffer, start) == |reply.buffer| &&
            Known(reply.buffer, reply.hole, reply.labels, frags) &&
            size == NameRoom(old(reply.Names()), frags) && reply.Names() == old(reply.Names()) + {frags}
  {
    hide NameAt, NameEnd, Fragments, IndexOk, NamesOf, NameRoom;
    var startOffset := |reply.buffer|;
    var myName := Qualify(domainName, zone);
    var n, _ := WriteName(reply, myName);
    AddLabelForCompression(reply, startOffset);
    size := |reply.buffer| - startOffset;
  }

  // ----- records -----

  /** A record is owned by a name already in the reply, or by a name of its own. */
  datatype Owner = Pointer(offset: uint16) | Named(name: bytes)

  datatype Rdata =
    | A(ip4: Ip4)
    | Aaaa(ip6: Ip6)
    | Cname(target: bytes)
    | Ns(host: bytes)
    | Mx(priority: uint16, exchange: bytes)
    | Soa(soa: Zones.Soa, zone: seq<bytes>)
    | Txt(text: bytes)
  {
    function Type(): uint16 {
      match this
      case A(_) => TYPE_A
      case Aaaa(_) => TYPE_AAAA
      case Cname(_) => TYPE_CNAME
      case Ns(_) => TYPE_NS
      case Mx(_, _) => TYPE_MX
      case Soa(_, _) => TYPE_SOA
      case Txt(_) => TYPE_TXT
    }

    /** The domain names in the data, in order. */
    function Names(): seq<bytes> {
      match this
      case A(_) => []
      case Aaaa(_) => []
      case Cname(n) => [n]
      case Ns(n) => [n]
      case Mx(_, n) => [n]
      case Soa(s, z) =>
        (if s.mname.Some? then [Qualified(s.mname.value, z)] else []) + [Qualified(s.GetRname(), z)]
      case Txt(_) => []
    }

    function Prefix(): bytes {
      match this
      case A(ip) => ip
      case Aaaa(ip) => ip
      case Mx(pri, _) => U16(pri)
      case Txt(t) => [|t| % 0x100] + t
      case _ => []
    }

    function Suffix(): bytes {
      match this
      case Soa(s, _) => U32(s.serial) + U32(s.refresh) + U32(s.retry) + U32(s.expire) + U32(s.minimum)
      case _ => []
    }

    /** What the data of the record is meant to say. */
    function Says(): Content {
      Content(Prefix(), FragmentsOf(Names()), Suffix())
    }

    predicate IsLegal() {
      forall k :: 0 <= k < |Names()| ==> LegalName(Names()[k])
    }
  }

  const TYPE_A: uint16 := 1
  const TYPE_NS: uint16 := 2
  const TYPE_CNAME: uint16 := 5
  const TYPE_SOA: uint16 := 6
  const TYPE_MX: uint16 := 15
  const TYPE_TXT: uint16 := 16
  const TYPE_AAAA: uint16 := 28

  function FragmentsOf(names: seq<bytes>): (r: seq<seq<bytes>>)
    ensures |r| == |names| && forall k :: 0 <= k < |names| ==> r[k] == Fragments(names[k])
  {
    seq(|names|, k requires 0 <= k < |names| => Fragments(names[k]))
  }

  predicate LegalOwner(b: bytes, owner: Owner) {
    match owner
    case Pointer(offset) => NameAt(b, NO_HOLE, Offset(offset), Offset(offset)).Some?
    case Named(name) => name != [] && LegalName(name)
  }

  function OwnerName(b: bytes, owner: Owner): seq<bytes>
    requires LegalOwner(b, owner)
  {
    match owner
    case Pointer(offset) => NameAt(b, NO_HOLE, Offset(offset), Offset(offset)).value
    case Named(name) => Fragments(name)
  }

  /** Owner name, type, class and time to live, in front of the RDLENGTH field at `hole`. */
  predicate HeaderAt(b: bytes, hole: nat, pos: nat, owner: seq<bytes>, rtype: uint16) {
    NameAt(b, hole, pos, pos) == Some(owner) && NameEnd(b, pos) + 8 == hole && hole + 2 <= |b| && pos + 8 <= hole &&
    GetU16(b, hole - 8) == rtype && GetU16(b, hole - 6) == CLASS_IN && GetU32(b, hole - 4) == TTL
  }

  /** The octets behind the RDLENGTH field say this much. */
  predicate BodyAt(b: bytes, hole: nat, prefix: bytes, names: seq<seq<bytes>>, suffix: bytes) {
    |suffix| <= |b| && OctetsAt(b, hole + 2, prefix) && OctetsAt(b, |b| - |suffix|, suffix) &&
    NamesAt(b, hole, hole + 2 + |prefix|, names, |b| - |suffix|)
  }

  const NOTHING: bytes := []

  lemma BodyParts(b: bytes, hole: nat, p: bytes, names: seq<seq<bytes>>)
    requires BodyAt(b, hole, p, names, NOTHING)
    ensures OctetsAt(b, hole + 2, p) && hole + 2 + |p| <= |b| && NamesAt(b, hole, hole + 2 + |p|, names, |b|)
  {
    hide AfterNames;
  }

  lemma BodyOf(b: bytes, hole: nat, p: bytes, names: seq<seq<bytes>>)
    requires OctetsAt(b, hole + 2, p) && NamesAt(b, hole, hole + 2 + |p|, names, |b|)
    ensures BodyAt(b, hole, p, names, NOTHING)
  {
    hide AfterNames;
  }

  lemma BodyPrefix(b: bytes, hole: nat, x: bytes)
    requires |b| == hole + 2
    ensures BodyAt(b + x, hole, x, [], NOTHING)
  {
  }

  lemma NamesGrow(b: bytes, b': bytes, hole: nat, from: nat, names: seq<seq<bytes>>, n: seq<bytes>)
    requires NamesAt(b, hole, from, names, |b|) && b <= b'
    requires NameAt(b', hole, |b|, |b|) == Some(n) && NameEnd(b', |b|) == |b'|
    ensures NamesAt(b', hole, from, names + [n], |b'|)
  {
    hide NameAt, NameEnd, AfterNames;
    FrameNames(b, hole, b', hole, from, names, |b|);
    NamesSnoc(b', hole, from, names, |b|, n, |b'|);
  }

  lemma BodyName(b: bytes, b': bytes, hole: nat, p: bytes, names: seq<seq<bytes>>, n: seq<bytes>)
    requires BodyAt(b, hole, p, names, NOTHING) && b <= b'
    requires NameAt(b', hole, |b|, |b|) == Some(n) && NameEnd(b', |b|) == |b'|
    ensures BodyAt(b', hole, p, names + [n], NOTHING)
  {
    hide *;
    BodyParts(b, hole, p, names);
    NamesGrow(b, b', hole, hole + 2 + |p|, names, n);
    OctetsStay(b, b', hole + 2, p);
    BodyOf(b', hole, p, names + [n]);
  }

  lemma OctetsStay(b: bytes, b': bytes, pos: nat, x: bytes)
    requires OctetsAt(b, pos, x) && |b| <= |b'| && forall i :: pos <= i < pos + |x| ==> b'[i] == b[i]
    ensures OctetsAt(b', pos, x)
  {
    assert b'[pos..pos + |x|] == b[pos..pos + |x|];
  }

  lemma BodySuffix(b: bytes, hole: nat, p: bytes, names: seq<seq<bytes>>, x: bytes)
    requires BodyAt(b, hole, p, names, NOTHING)
    ensures BodyAt(b + x, hole, p, names, x)
  {
    hide NameAt, NameEnd, AfterNames;
    FrameNames(b, hole, b + x, hole, hole + 2 + |p|, names, |b|);
    OctetsStay(b, b + x, hole + 2, p);
    assert (b + x)[|b|..|b| + |x|] == x;
  }

  lemma HeaderStable(b: bytes, hole: nat, b': bytes, hole': nat, pos: nat, owner: seq<bytes>, rtype: uint16)
    requires HeaderAt(b, hole, pos, owner, rtype) && HEADER_SIZE <= pos && |b| <= |b'|
    requires forall i :: HEADER_SIZE <= i < |b| && !(hole <= i < hole + 2) ==> b'[i] == b[i]
    requires hole' == hole || hole' == NO_HOLE
    ensures NameAt(b', hole', pos, pos) == Some(owner) && NameEnd(b', pos) + 8 == hole
    ensures GetU16(b', hole - 8) == rtype && GetU16(b', hole - 6) == CLASS_IN && GetU32(b', hole - 4) == TTL
  {
    hide NameAt, NameEnd;
    Frame(b, hole, b', hole', pos, pos);
    NameEndAfter(b, pos);
    assert forall i :: hole - 8 <= i < hole ==> b'[i] == b[i];
  }

  lemma FrameIs(b: bytes, hole: nat, pos: nat, owner: seq<bytes>, rtype: uint16)
    requires NameAt(b, NO_HOLE, pos, pos) == Some(owner) && NameEnd(b, pos) + 8 == hole && hole + 2 <= |b|
    requires GetU16(b, hole - 8) == rtype && GetU16(b, hole - 6) == CLASS_IN && GetU32(b, hole - 4) == TTL
    requires GetU16(b, hole) == |b| - (hole + 2)
    ensures ReadFrame(b, pos) == Some(Framed(owner, rtype, CLASS_IN, TTL, hole + 2, |b|))
  {
    hide NameAt, NameEnd;
  }

  /** Patching RDLENGTH with the number of octets behind it completes the record. */
  lemma Completed(b: bytes, hole: nat, pos: nat, b': bytes, r: Record)
    requires HEADER_SIZE <= pos && HeaderAt(b, hole, pos, r.owner, r.rtype)
    requires BodyAt(b, hole, r.content.prefix, r.content.names, r.content.suffix)
    requires |b'| == |b| && forall i :: 0 <= i < |b| && !(hole <= i < hole + 2) ==> b'[i] == b[i]
    requires GetU16(b', hole) == |b| - (hole + 2)
    ensures RecordAt(b', pos, r, |b|)
  {
    hide NameAt, NameEnd, BodyAt, ContentAt, ReadFrame;
    HeaderStable(b, hole, b', NO_HOLE, pos, r.owner, r.rtype);
    FrameIs(b', hole, pos, r.owner, r.rtype);
    BodyPatched(b, hole, b', r.content);
    assert Holds(b', Framed(r.owner, r.rtype, CLASS_IN, TTL, hole + 2, |b|), r);
  }

  lemma BodyPatched(b: bytes, hole: nat, b': bytes, c: Content)
    requires BodyAt(b, hole, c.prefix, c.names, c.suffix) && |b'| == |b|
    requires forall i :: 0 <= i < |b| && !(hole <= i < hole + 2) ==> b'[i] == b[i]
    ensures ContentAt(b', hole + 2, c, |b|)
  {
    hide NameAt, NameEnd, AfterNames;
    FrameNames(b, hole, b', NO_HOLE, hole + 2 + |c.prefix|, c.names, |b| - |c.suffix|);
    NamesForward(b, hole, hole + 2 + |c.prefix|, c.names, |b| - |c.suffix|);
    OctetsStay(b, b', hole + 2, c.prefix);
    OctetsStay(b, b', |b| - |c.suffix|, c.suffix);
  }

  /** Everything that is to be written can be written: names of legal size, and an owner that is there. */
  predicate LegalRecord(b: bytes, owner: Owner, rdata: Rdata) {
    LegalOwner(b, owner) && rdata.IsLegal()
  }

  /** What a record with this owner and data says in a reply that holds `b` so far. */
  function RecordOf(b: bytes, owner: Owner, rdata: Rdata): Record
    requires LegalOwner(b, owner)
  {
    Record(OwnerName(b, owner), rdata.Type(), rdata.Says())
  }

  // ----- how much room a record takes -----

  /** Names written one after the other; each can point into those before it. */
  ghost function NamesRoom(known: set<seq<bytes>>, names: seq<seq<bytes>>): nat
    decreases |names|
  {
    if names == [] then 0
    else NameRoom(known, names[0]) + NamesRoom(known + {names[0]}, names[1..])
  }

  ghost function AllOf(names: seq<seq<bytes>>): set<seq<bytes>> {
    set k | 0 <= k < |names| :: names[k]
  }

  ghost function OwnerRoom(known: set<seq<bytes>>, owner: Owner): nat {
    match owner
    case Pointer(_) => 2
    case Named(name) => NameRoom(known, Fragments(name))
  }

  /** The octets behind RDLENGTH. */
  ghost function DataRoom(known: set<seq<bytes>>, rdata: Rdata): nat {
    |rdata.Prefix()| + NamesRoom(known, FragmentsOf(rdata.Names())) + |rdata.Suffix()|
  }

  lemma OneNameRoom(known: set<seq<bytes>>, n: seq<bytes>)
    ensures NamesRoom(known, [n]) == NameRoom(known, n) && AllOf([n]) == {n}
  {
    hide NameRoom;
    var names := [n];
    assert names[0] == n && names[1..] == [];
    assert NamesRoom(known + {n}, []) == 0;
  }

  lemma TwoNamesRoom(known: set<seq<bytes>>, m: seq<bytes>, n: seq<bytes>)
    ensures NamesRoom(known, [m, n]) == NameRoom(known, m) + NameRoom(known + {m}, n) && AllOf([m, n]) == {m, n}
  {
    hide NameRoom;
    var names := [m, n];
    assert names[0] == m && names[1] == n && names[1..] == [n];
    OneNameRoom(known + {m}, n);
  }

  lemma SoaRoom(known: set<seq<bytes>>, rdata: Rdata)
    requires rdata.Soa?
    ensures var s, z := rdata.soa, rdata.zone;
            var n := Fragments(Qualified(s.GetRname(), z));
            if s.mname.Some? then
              var m := Fragments(Qualified(s.mname.value, z));
              DataRoom(known, rdata) == NameRoom(known, m) + NameRoom(known + {m}, n) + |rdata.Suffix()| &&
              known + AllOf(FragmentsOf(rdata.Names())) == known + {m} + {n}
            else
              DataRoom(known, rdata) == NameRoom(known, n) + |rdata.Suffix()| &&
              AllOf(FragmentsOf(rdata.Names())) == {n}
  {
    hide NameRoom, Fragments, Qualified;
    var s, z := rdata.soa, rdata.zone;
    var n := Fragments(Qualified(s.GetRname(), z));
    if s.mname.Some? {
      TwoNamesRoom(known, Fragments(Qualified(s.mname.value, z)), n);
      assert FragmentsOf(rdata.Names()) == [Fragments(Qualified(s.mname.value, z)), n];
    } else {
      OneNameRoom(known, n);
      assert FragmentsOf(rdata.Names()) == [n];
    }
  }

  lemma NoNameRoom(known: set<seq<bytes>>, rdata: Rdata)
    requires FragmentsOf(rdata.Names()) == []
    ensures DataRoom(known, rdata) == |rdata.Prefix()| + |rdata.Suffix()|
    ensures known + AllOf(FragmentsOf(rdata.Names())) == known
  {
  }

  /** One answer: the common header of a record and the data of its type. */
  class AnswerBase {
    const owner: Owner
    const rdata: Rdata
    var rdlengthHdr: nat
    var rdlength: uint16
    var size: nat
    var origLen: nat

    constructor (owner: Owner, rdata: Rdata)
      ensures this.owner == owner && this.rdata == rdata
      ensures rdata.A? ==> rdlength == 4
      ensures rdata.Aaaa? ==> rdlength == 16
    {
      this.owner, this.rdata := owner, rdata;
      rdlengthHdr, size, origLen := 0, 0, 0;
      rdlength := if rdata.A? then 4 else if rdata.Aaaa? then 16 else 0;
    }

    method WriteRdlength(reply: Reply)
      requires rdlengthHdr + 2 <= |reply.buffer|
      modifies reply`buffer
      ensures reply.buffer == Patch(old(reply.buffer), rdlengthHdr, U16(rdlength))
      ensures GetU16(reply.buffer, rdlengthHdr) == rdlength
    {
      reply.buffer := Patch(reply.buffer, rdlengthHdr, U16(rdlength));
      assert reply.buffer[rdlengthHdr] == U16(rdlength)[0] && reply.buffer[rdlengthHdr + 1] == U16(rdlength)[1];
    }

    /** The owner name; it becomes available for compression. */
    method WriteOwner(reply: Reply)
      requires reply.Valid() && reply.hole == NO_HOLE && LegalOwner(reply.buffer, owner) && |reply.buffer| <= 0x400
      modifies reply`buffer, reply`labels
      ensures reply.Valid() && old(reply.buffer) <= reply.buffer && old(reply.labels) <= reply.labels
      ensures |reply.buffer| <= |old(reply.buffer)| + MAX_NAME
      ensures var pos := |old(reply.buffer)|;
              NameAt(reply.buffer, NO_HOLE, pos, pos) == Some(OwnerName(old(reply.buffer), owner)) &&
              NameEnd(reply.buffer, pos) == |reply.buffer|
      ensures |reply.buffer| == |old(reply.buffer)| + OwnerRoom(old(reply.Names()), owner)
      ensures reply.Names() == old(reply.Names()) + {OwnerName(old(reply.buffer), owner)}
    {
      match owner
      case Named(name) =>
        QualifiedAbsolute(name);
        var _ := WriteDomainName(reply, name, []);
      case Pointer(offset) =>
        ghost var b := reply.buffer;
        reply.Append(U16(Tagged(offset)));
        PointerReads(b, offset);
        AddLabelForCompression(reply, Tagged(offset));
    }

    /** The header of the record; RDLENGTH is written as it stands and may be patched later. */
    method WriteHeader(reply: Reply)
      requires reply.Valid() && reply.hole == NO_HOLE && LegalOwner(reply.buffer, owner) && |reply.buffer| <= 0x400
      modifies reply`buffer, reply`labels, reply`hole, this`rdlengthHdr, this`size, this`origLen
      ensures reply.Valid() && old(reply.buffer) <= reply.buffer && old(reply.labels) <= reply.labels
      ensures origLen == |old(reply.buffer)| && size == |reply.buffer| - origLen <= MAX_NAME + 10
      ensures rdlengthHdr == reply.hole == |reply.buffer| - 2 && GetU16(reply.buffer, rdlengthHdr) == rdlength
      ensures HeaderAt(reply.buffer, reply.hole, origLen, OwnerName(old(reply.buffer), owner), rdata.Type())
      ensures size == OwnerRoom(old(reply.Names()), owner) + 10
      ensures reply.Names() == old(reply.Names()) + {OwnerName(old(reply.buffer), owner)}
    {
      hide NameAt, NameEnd, HeaderAt, IndexOk, LegalOwner, OwnerName, FixedPart, GetU32, NamesOf, OwnerRoom;
      origLen := |reply.buffer|;
      WriteOwner(reply);
      ghost var b := reply.buffer;
      FixedFields(b, origLen, OwnerName(old(reply.buffer), owner), rdata.Type(), reply.labels);
      reply.buffer := reply.buffer + FixedPart(rdata.Type());
      rdlengthHdr := |reply.buffer| - 2;
      reply.hole := rdlengthHdr;
      ghost var b' := reply.buffer;
      WriteRdlength(reply);
      LengthRewritten(b', reply.hole, reply.buffer, origLen, OwnerName(old(reply.buffer), owner), rdata.Type(),
                      reply.labels);
      size := |reply.buffer| - origLen;
    }

    /** Right behind the header: nothing of the data is there yet. */
    ghost predicate AtData(reply: Reply)
      reads this, reply
    {
      reply.Valid() && rdlengthHdr == reply.hole == |reply.buffer| - 2 && HEADER_SIZE <= reply.hole &&
      |reply.buffer| <= 0x400 + MAX_NAME + 10
    }

    /** The data of the record is complete and counted. */
    ghost predicate DataWritten(reply: Reply)
      reads this, reply
    {
      reply.Valid() && rdlengthHdr == reply.hole && reply.hole + 2 <= |reply.buffer| &&
      BodyAt(reply.buffer, reply.hole, rdata.Prefix(), FragmentsOf(rdata.Names()), rdata.Suffix()) &&
      rdlength == (|reply.buffer| - (reply.hole + 2)) % 0x1_0000
    }

    /** Writes a domain name behind the data written so far. */
    method WriteDataName(reply: Reply, name: bytes, zone: seq<bytes>, ghost p: bytes, ghost names: seq<seq<bytes>>)
      returns (n: nat)
      requires reply.Valid() && LegalName(Qualified(name, zone)) && |reply.buffer| + MAX_NAME <= MAX_OFFSET
      requires BodyAt(reply.buffer, reply.hole, p, names, NOTHING)
      modifies reply`buffer, reply`labels
      ensures reply.Valid() && old(reply.buffer) <= reply.buffer && old(reply.labels) <= reply.labels
      ensures n == |reply.buffer| - |old(reply.buffer)| <= MAX_NAME
      ensures BodyAt(reply.buffer, reply.hole, p, names + [Fragments(Qualified(name, zone))], NOTHING)
      ensures n == NameRoom(old(reply.Names()), Fragments(Qualified(name, zone)))
      ensures reply.Names() == old(reply.Names()) + {Fragments(Qualified(name, zone))}
    {
      n := WriteDomainName(reply, name, zone);
      BodyName(old(reply.buffer), reply.buffer, reply.hole, p, names, Fragments(Qualified(name, zone)));
    }

    method WriteAddress(reply: Reply, ip: bytes)
      requires AtData(reply) && rdlength == |ip| && ((rdata.A? && rdata.ip4 == ip) || (rdata.Aaaa? && rdata.ip6 == ip))
      modifies reply`buffer, this`size
      ensures DataWritten(reply) && old(reply.buffer) <= reply.buffer
      ensures size == old(size) + rdlength
      ensures |reply.buffer| == |old(reply.buffer)| + DataRoom(old(reply.Names()), rdata)
      ensures reply.Names() == old(reply.Names()) + AllOf(FragmentsOf(rdata.Names()))
    {
      size := size + |ip|;
      reply.Append(ip);
      BodyPrefix(old(reply.buffer), reply.hole, ip);
      assert FragmentsOf(rdata.Names()) == [];
      NoNameRoom(reply.Names(), rdata);
    }

    method WriteTarget(reply: Reply, name: bytes)
      requires AtData(reply) && rdata.IsLegal()
      requires (rdata.Cname? && rdata.target == name) || (rdata.Ns? && rdata.host == name)
      modifies reply`buffer, reply`labels, this`size, this`rdlength
      ensures DataWritten(reply) && old(reply.buffer) <= reply.buffer && old(reply.labels) <= reply.labels
      ensures size == old(size) + rdlength
      ensures |reply.buffer| == |old(reply.buffer)| + DataRoom(old(reply.Names()), rdata)
      ensures reply.Names() == old(reply.Names()) + AllOf(FragmentsOf(rdata.Names()))
    {
      hide NameAt, NameEnd, BodyAt, IndexOk, Fragments, FragmentsOf, Encode, Qualified, NamesOf, NameRoom, NamesRoom,
           AllOf;
      OnlyName(rdata, name);
      assert FragmentsOf(rdata.Names()) == [Fragments(Qualified(name, []))];
      OneNameRoom(reply.Names(), Fragments(Qualified(name, [])));
      BodyPrefix(reply.buffer, reply.hole, NOTHING);
      assert reply.buffer + NOTHING == reply.buffer;
      rdlength := WriteDataName(reply, name, [], NOTHING, []);
      size := size + rdlength;
    }

    method WriteMx(reply: Reply)
      requires AtData(reply) && rdata.Mx? && rdata.IsLegal()
      modifies reply`buffer, reply`labels, this`size, this`rdlength
      ensures DataWritten(reply) && old(reply.buffer) <= reply.buffer && old(reply.labels) <= reply.labels
      ensures size == old(size) + rdlength
      ensures |reply.buffer| == |old(reply.buffer)| + DataRoom(old(reply.Names()), rdata)
      ensures reply.Names() == old(reply.Names()) + AllOf(FragmentsOf(rdata.Names()))
    {
      hide NameAt, NameEnd, BodyAt, IndexOk, Fragments, Encode, NamesOf, NameRoom, NamesRoom, AllOf;
      assert FragmentsOf(rdata.Names()) == [Fragments(rdata.exchange)];
      OneNameRoom(reply.Names(), Fragments(rdata.exchange));
      reply.Append(U16(rdata.priority));
      BodyPrefix(old(reply.buffer), reply.hole, U16(rdata.priority));
      assert LegalName(rdata.Names()[0]);
      QualifiedAbsolute(rdata.exchange);
      var n := WriteDataName(reply, rdata.exchange, [], U16(rdata.priority), []);
      rdlength := 2 + n;
      size := size + rdlength;
      assert FragmentsOf(rdata.Names()) == [] + [Fragments(rdata.exchange)];
    }

    method WriteText(reply: Reply)
      requires AtData(reply) && rdata.Txt?
      modifies reply`buffer, this`size, this`rdlength
      ensures DataWritten(reply) && old(reply.buffer) <= reply.buffer
      ensures size == old(size) + rdlength
      ensures |reply.buffer| == |old(reply.buffer)| + DataRoom(old(reply.Names()), rdata)
      ensures reply.Names() == old(reply.Names()) + AllOf(FragmentsOf(rdata.Names()))
    {
      var t := rdata.text;
      reply.Append([|t| % 0x100] + t);
      BodyPrefix(old(reply.buffer), reply.hole, [|t| % 0x100] + t);
      rdlength := (1 + |t|) % 0x1_0000;
      size := size + rdlength;
      assert FragmentsOf(rdata.Names()) == [];
      NoNameRoom(reply.Names(), rdata);
    }

    method WriteSoaNames(reply: Reply)
      requires AtData(reply) && rdata.Soa? && rdata.IsLegal()
      modifies reply`buffer, reply`labels
      ensures reply.Valid() && old(reply.buffer) <= reply.buffer && old(reply.labels) <= reply.labels
      ensures BodyAt(reply.buffer, reply.hole, NOTHING, FragmentsOf(rdata.Names()), NOTHING)
      ensures |reply.buffer| == |old(reply.buffer)| + DataRoom(old(reply.Names()), rdata) - |rdata.Suffix()|
      ensures reply.Names() == old(reply.Names()) + AllOf(FragmentsOf(rdata.Names()))
    {
      hide NameAt, NameEnd, BodyAt, IndexOk, Fragments, Encode, NamesOf, NameRoom, DataRoom, AllOf;
      var soa := rdata.soa;
      ghost var known := reply.Names();
      ghost var names: seq<seq<bytes>> := [];
      BodyPrefix(reply.buffer, reply.hole, NOTHING);
      assert reply.buffer + NOTHING == reply.buffer;
      if soa.mname.Some? {
        assert LegalName(rdata.Names()[0]);
        var _ := WriteDataName(reply, soa.mname.value, rdata.zone, NOTHING, names);
        names := names + [Fragments(Qualified(soa.mname.value, rdata.zone))];
      }
      assert LegalName(rdata.Names()[|rdata.Names()| - 1]);
      var _ := WriteDataName(reply, soa.GetRname(), rdata.zone, NOTHING, names);
      assert FragmentsOf(rdata.Names()) == names + [Fragments(Qualified(soa.GetRname(), rdata.zone))];
      SoaRoom(known, rdata);
    }

    method WriteSoa(reply: Reply)
      requires AtData(reply) && rdata.Soa? && rdata.IsLegal()
      modifies reply`buffer, reply`labels, this`size, this`rdlength
      ensures DataWritten(reply) && old(reply.buffer) <= reply.buffer && old(reply.labels) <= reply.labels
      ensures size == old(size) + rdlength
      ensures |reply.buffer| == |old(reply.buffer)| + DataRoom(old(reply.Names()), rdata)
      ensures reply.Names() == old(reply.Names()) + AllOf(FragmentsOf(rdata.Names()))
    {
      hide NameAt, NameEnd, BodyAt, IndexOk, FragmentsOf, NamesOf, NameRoom, DataRoom, AllOf;
      var origSize := |reply.buffer|;
      WriteSoaNames(reply);
      var numbers := rdata.Suffix();
      BodySuffix(reply.buffer, reply.hole, NOTHING, FragmentsOf(rdata.Names()), numbers);
      reply.Append(numbers);
      rdlength := (|reply.buffer| - origSize) % 0x1_0000;
      size := size + rdlength;
    }

    method WriteRdata(reply: Reply)
      requires AtData(reply) && rdata.IsLegal()
      requires (rdata.A? ==> rdlength == 4) && (rdata.Aaaa? ==> rdlength == 16)
      modifies reply`buffer, reply`labels, this`size, this`rdlength
      ensures DataWritten(reply) && old(reply.buffer) <= reply.buffer && old(reply.labels) <= reply.labels
      ensures size == old(size) + rdlength
      ensures rdata.A? || rdata.Aaaa? ==> rdlength == old(rdlength)
      ensures |reply.buffer| == |old(reply.buffer)| + DataRoom(old(reply.Names()), rdata)
      ensures reply.Names() == old(reply.Names()) + AllOf(FragmentsOf(rdata.Names()))
    {
      hide NamesOf, DataRoom, AllOf, BodyAt, IndexOk, FragmentsOf;
      match rdata {
        case A(ip) => WriteAddress(reply, ip);
        case Aaaa(ip) => WriteAddress(reply, ip);
        case Cname(n) => WriteTarget(reply, n);
        case Ns(n) => WriteTarget(reply, n);
        case Mx(_, _) => WriteMx(reply);
        case Soa(_, _) => WriteSoa(reply);
        case Txt(_) => WriteText(reply);
      }
    }

    /** Fills in RDLENGTH, unless the type fixes it: the record is complete. */
    method Finish(reply: Reply, ghost r: Record)
      requires DataWritten(reply) && HEADER_SIZE <= origLen &&
               HeaderAt(reply.buffer, reply.hole, origLen, r.owner, r.rtype)
      requires r.content == rdata.Says()
      requires rdata.A? || rdata.Aaaa? ==> GetU16(reply.buffer, reply.hole) == rdlength
      modifies reply`buffer, reply`hole
      ensures reply.Valid() && reply.hole == NO_HOLE && rdlengthHdr + 2 <= |reply.buffer|
      ensures |reply.buffer| == |old(reply.buffer)| && reply.buffer[..rdlengthHdr] == old(reply.buffer)[..rdlengthHdr]
      ensures |reply.buffer| < 0x1_0000 ==>
                GetU16(reply.buffer, rdlengthHdr) == |reply.buffer| - (rdlengthHdr + 2) &&
                RecordAt(reply.buffer, origLen, r, |reply.buffer|)
      ensures reply.Names() == old(reply.Names())
    {
      hide NameAt, NameEnd, AfterNames, NamesOf;
      ghost var b, hole := reply.buffer, reply.hole;
      if !rdata.A? && !rdata.Aaaa? {
        WriteRdlength(reply);
      }
      reply.hole := NO_HOLE;
      StillIndexed(b, hole, reply.buffer, NO_HOLE, reply.labels);
      if |b| < 0x1_0000 {
        Completed(b, hole, origLen, reply.buffer, r);
      }
    }

    /** The data behind the header, and its length. */
    method WriteRest(reply: Reply, ghost r: Record)
      requires AtData(reply) && rdata.IsLegal() && r.content == rdata.Says() && HEADER_SIZE <= origLen
      requires HeaderAt(reply.buffer, reply.hole, origLen, r.owner, r.rtype) &&
               GetU16(reply.buffer, reply.hole) == rdlength
      requires (rdata.A? ==> rdlength == 4) && (rdata.Aaaa? ==> rdlength == 16)
      modifies reply`buffer, reply`labels, reply`hole, this`size, this`rdlength
      ensures reply.Valid() && reply.hole == NO_HOLE && rdlengthHdr + 2 <= |reply.buffer| &&
              old(reply.labels) <= reply.labels
      ensures size == old(size) + rdlength && reply.buffer[..rdlengthHdr] == old(reply.buffer)[..rdlengthHdr]
      ensures rdlength == (|reply.buffer| - (rdlengthHdr + 2)) % 0x1_0000
      ensures |reply.buffer| < 0x1_0000 ==>
                GetU16(reply.buffer, rdlengthHdr) == |reply.buffer| - (rdlengthHdr + 2) &&
                RecordAt(reply.buffer, origLen, r, |reply.buffer|)
      ensures |reply.buffer| == |old(reply.buffer)| + DataRoom(old(reply.Names()), rdata)
      ensures reply.Names() == old(reply.Names()) + AllOf(FragmentsOf(rdata.Names()))
    {
      hide NameAt, NameEnd, AfterNames, BodyAt, IndexOk, GetU32, NamesOf, DataRoom, AllOf, FragmentsOf;
      ghost var b := reply.buffer;
      WriteRdata(reply);
      HeaderStable(b, reply.hole, reply.buffer, reply.hole, origLen, r.owner, r.rtype);
      Finish(reply, r);
    }

    /** Writes the record: header, data, and the length of the data where the type does not fix it. */
    method Write(reply: Reply)
      requires reply.Valid() && reply.hole == NO_HOLE && LegalRecord(reply.buffer, owner, rdata) &&
               |reply.buffer| <= 0x400
      requires (rdata.A? ==> rdlength == 4) && (rdata.Aaaa? ==> rdlength == 16)
      modifies reply`buffer, reply`labels, reply`hole, this
      ensures reply.Valid() && reply.hole == NO_HOLE && old(reply.buffer) <= reply.buffer &&
              old(reply.labels) <= reply.labels
      ensures origLen == |old(reply.buffer)| && rdlengthHdr + 2 <= |reply.buffer|
      ensures |reply.buffer| < 0x1_0000 ==>
                size == |reply.buffer| - origLen &&
                GetU16(reply.buffer, rdlengthHdr) == |reply.buffer| - (rdlengthHdr + 2) &&
                RecordAt(reply.buffer, origLen, RecordOf(old(reply.buffer), owner, rdata), |reply.buffer|)
      ensures var known, name := old(reply.Names()), OwnerName(old(reply.buffer), owner);
              |reply.buffer| == origLen + OwnerRoom(known, owner) + 10 + DataRoom(known + {name}, rdata) &&
              reply.Names() == known + {name} + AllOf(FragmentsOf(rdata.Names()))
    {
      hide NameAt, NameEnd, AfterNames, NamesOf, DataRoom, AllOf, FragmentsOf, OwnerRoom, RecordAt, IndexOk, OwnerName;
      ghost var r := RecordOf(reply.buffer, owner, rdata);
      WriteHeader(reply);
      ghost var b := reply.buffer;
      WriteRest(reply, r);
      PrefixKept(old(reply.buffer), b, reply.buffer, rdlengthHdr);
    }

    /** Undoes the latest Write. */
    method Revert(reply: Reply)
      requires origLen <= |reply.buffer|
      modifies reply`buffer
      ensures reply.buffer == old(reply.buffer)[..origLen]
    {
      reply.buffer := reply.buffer[..origLen];
    }
  }

  lemma PrefixKept(a: bytes, b: bytes, b': bytes, n: nat)
    requires a <= b && |a| <= n <= |b| && n <= |b'| && b'[..n] == b[..n]
    ensures a <= b'
  {
    assert b'[..|a|] == b[..n][..|a|] == b[..|a|];
  }

  lemma OnlyName(rdata: Rdata, name: bytes)
    requires (rdata.Cname? && rdata.target == name) || (rdata.Ns? && rdata.host == name)
    ensures rdata.Prefix() == NOTHING && rdata.Suffix() == NOTHING && Qualified(name, []) == name
    ensures FragmentsOf(rdata.Names()) == [] + [Fragments(Qualified(name, []))]
    ensures rdata.IsLegal() ==> LegalName(name)
  {
    assert rdata.Names()[0] == name;
  }

  lemma QualifiedAbsolute(name: bytes)
    ensures Qualified(name, []) == name
  {
  }

  function FixedPart(rtype: uint16): (r: bytes)
    ensures |r| == 10
    ensures GetU16(r, 0) == rtype && GetU16(r, 2) == CLASS_IN && GetU32(r, 4) == TTL && GetU16(r, 8) == 0
  {
    U16(rtype) + U16(CLASS_IN) + U32(TTL) + U16(0)
  }

  /** The length field is outside every name and outside the fields in front of it. */
  lemma LengthRewritten(b: bytes, hole: nat, b': bytes, pos: nat, owner: seq<bytes>, rtype: uint16, labels: seq<uint16>)
    requires HEADER_SIZE <= pos && HeaderAt(b, hole, pos, owner, rtype) && IndexOk(b, hole, labels)
    requires |b'| == |b| && forall i :: 0 <= i < |b| && !(hole <= i < hole + 2) ==> b'[i] == b[i]
    ensures HeaderAt(b', hole, pos, owner, rtype) && IndexOk(b', hole, labels)
    ensures NamesOf(b', hole, labels) == NamesOf(b, hole, labels)
  {
    hide NameAt, NameEnd;
    StillIndexed(b, hole, b', hole, labels);
    HeaderStable(b, hole, b', hole, pos, owner, rtype);
  }

  lemma FixedFieldsRead(b: bytes, rtype: uint16)
    ensures var b' := b + FixedPart(rtype);
            GetU16(b', |b|) == rtype && GetU16(b', |b| + 2) == CLASS_IN && GetU32(b', |b| + 4) == TTL
  {
    var b' := b + FixedPart(rtype);
    assert forall i :: 0 <= i < 10 ==> b'[|b| + i] == FixedPart(rtype)[i];
  }

  /** Type, class, time to live and a length field behind an owner name make a record header with a hole. */
  lemma FixedFields(b: bytes, pos: nat, owner: seq<bytes>, rtype: uint16, labels: seq<uint16>)
    requires NameAt(b, NO_HOLE, pos, pos) == Some(owner) && NameEnd(b, pos) == |b| && IndexOk(b, NO_HOLE, labels)
    ensures var b' := b + FixedPart(rtype);
            HeaderAt(b', |b| + 8, pos, owner, rtype) && IndexOk(b', |b| + 8, labels) &&
            NamesOf(b', |b| + 8, labels) == NamesOf(b, NO_HOLE, labels)
  {
    var b' := b + FixedPart(rtype);
    hide NameAt, NameEnd, FixedPart, GetU16, GetU32, IndexOk;
    Frame(b, NO_HOLE, b', |b| + 8, pos, pos);
    NameEndAfter(b, pos);
    StillIndexed(b, NO_HOLE, b', |b| + 8, labels);
    FixedFieldsRead(b, rtype);
  }

  /** An appended pointer reads as the name it points at. */
  lemma PointerReads(b: bytes, offset: uint16)
    requires HEADER_SIZE <= |b| && NameAt(b, NO_HOLE, Offset(offset), Offset(offset)).Some?
    ensures var b' := b + U16(Tagged(offset));
            NameAt(b', NO_HOLE, |b|, |b|) == NameAt(b, NO_HOLE, Offset(offset), Offset(offset)) &&
            NameAt(b', NO_HOLE, Offset(offset), Offset(offset)) == NameAt(b, NO_HOLE, Offset(offset), Offset(offset)) &&
            NameEnd(b', |b|) == |b'|
  {
    var b' := b + U16(Tagged(offset));
    Frame(b, NO_HOLE, b', NO_HOLE, Offset(offset), Offset(offset));
    assert b'[|b|] == U16(Tagged(offset))[0] && b'[|b| + 1] == U16(Tagged(offset))[1];
    assert GetU16(b', |b|) == Tagged(offset);
  }

  /** The one character-string that fills the data of a TXT record, RFC 1035, section 3.3.14. */
  function OneString(data: bytes): Option<bytes> {
    if data != [] && data[0] as int + 1 == |data| then Some(data[1..]) else None
  }

  /** The length octet holds the length of the text only up to 255. */
  lemma TextIsOneString(text: bytes)
    ensures OneString(Txt(text).Prefix()) == Some(text) <==> |text| <= 255
  {
    var data := Txt(text).Prefix();
    assert data[1..] == text && data[0] == |text| % 0x100;
  }
}
