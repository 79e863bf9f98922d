/**
 * Names inside a message (sections 3.1 and 4.1.4 of RFC 1035): a run of labels that ends in a zero
 * octet or in a two-octet pointer to a name written earlier.
 */
module Compression {
  import opened Bytes

  const HEADER_SIZE: nat := 12
  // The value of `hole` when no field is waiting to be patched.
  const NO_HOLE: nat := 0
  // What 14 bits of a pointer can address.
  const MAX_OFFSET: nat := 0x4000

  /** ptr & ~0xC000 */
  function Offset(ptr: uint16): (o: nat)
    ensures o < MAX_OFFSET
  {
    ptr % 0x4000
  }

  /** offset | 0xC000 */
  function Tagged(offset: uint16): (t: uint16)
    ensures 0xC000 <= t && Offset(t) == Offset(offset)
  {
    0xC000 + offset % 0x4000
  }

  /** The octets pos, ..., pos + n - 1 lie behind the header, inside the buffer and outside the hole. */
  predicate Readable(b: bytes, hole: nat, pos: nat, n: nat) {
    HEADER_SIZE <= pos && pos + n <= |b| && (pos + n <= hole || hole + 2 <= pos)
  }

  /**
   * The labels a reader finds at `pos` by following labels and pointers. `run` is where the current
   * run of labels began; a pointer must lead to an earlier run. `hole` is the position of a two-octet
   * field that will still be overwritten: a name must not depend on it, nor on the message header.
   */
  function NameAt(b: bytes, hole: nat, run: nat, pos: nat): Option<seq<bytes>>
    requires run <= pos
    decreases run, |b| - pos
  {
    if !Readable(b, hole, pos, 1) then None
    else
      var len := b[pos];
      if len == 0 then Some([])
      else if len < 64 then
        if !Readable(b, hole, pos, len + 1) then None
        else
          match NameAt(b, hole, run, pos + 1 + len)
          case None => None
          case Some(rest) => Some([b[pos + 1..pos + 1 + len]] + rest)
      else if len >= 0xC0 then
        if !Readable(b, hole, pos, 2) then None
        else
          var target := Offset(GetU16(b, pos));
          if target < run then NameAt(b, hole, target, target) else None
      else None
  }

  /** The position after the run of labels at `pos`; pointers are not followed. */
  function NameEnd(b: bytes, pos: nat): nat
    decreases |b| - pos
  {
    if pos >= |b| then pos
    else if b[pos] == 0 then pos + 1
    else if b[pos] < 64 then NameEnd(b, pos + 1 + b[pos])
    else pos + 2
  }

  predicate ValidLabel(l: bytes) {
    1 <= |l| <= 63
  }

  predicate Legal(labels: seq<bytes>) {
    forall k :: 0 <= k < |labels| ==> ValidLabel(labels[k])
  }

  /** Length octet (truncated to eight bits) and text of each label, without terminator. */
  function Encode(labels: seq<bytes>): bytes {
    if labels == [] then [] else [|labels[0]| % 0x100] + labels[0] + Encode(labels[1..])
  }

  /** The octets of a name that reuses nothing. */
  function PlainName(frags: seq<bytes>): bytes {
    Encode(frags) + [0]
  }

  /** How many labels two names share, counted from their right ends. */
  function CommonSuffix<T(==)>(a: seq<T>, b: seq<T>): (k: nat)
    ensures k <= |a| && k <= |b|
  {
    if a == [] || b == [] || a[|a| - 1] != b[|b| - 1] then 0
    else CommonSuffix(a[..|a| - 1], b[..|b| - 1]) + 1
  }

  /** `labels` in front of a name, if there is one. */
  function Before(labels: seq<bytes>, name: Option<seq<bytes>>): Option<seq<bytes>> {
    match name
    case None => None
    case Some(rest) => Some(labels + rest)
  }

  /** One octet of length, or one pointer, of the way a reader goes. */
  lemma NameStep(b: bytes, hole: nat, run: nat, pos: nat)
    requires run <= pos && Readable(b, hole, pos, 1)
    ensures var len := b[pos];
            NameAt(b, hole, run, pos) ==
              (if len == 0 then Some([])
               else if len < 64 then
                 if Readable(b, hole, pos, len + 1)
                 then Before([b[pos + 1..pos + 1 + len]], NameAt(b, hole, run, pos + 1 + len)) else None
               else if len >= 0xC0 && Readable(b, hole, pos, 2) && Offset(GetU16(b, pos)) < run
               then NameAt(b, hole, Offset(GetU16(b, pos)), Offset(GetU16(b, pos))) else None) &&
            NameEnd(b, pos) == if len == 0 then pos + 1 else if len < 64 then NameEnd(b, pos + 1 + len) else pos + 2
  {
  }

  /** Between these buffers octets may be appended, the hole and the header may change. */
  ghost predicate Kept(b: bytes, hole: nat, b': bytes, hole': nat) {
    |b| <= |b'| && (forall i :: HEADER_SIZE <= i < |b| && !(hole <= i < hole + 2) ==> b'[i] == b[i]) &&
    (hole' == hole || hole' + 2 <= HEADER_SIZE || |b| <= hole')
  }

  lemma Window(b: bytes, hole: nat, b': bytes, hole': nat, pos: nat, n: nat)
    requires Kept(b, hole, b', hole') && Readable(b, hole, pos, n) && n > 0
    ensures Readable(b', hole', pos, n) && pos + n <= |b| <= |b'|
    ensures b'[pos] == b[pos] && b'[pos + 1..pos + n] == b[pos + 1..pos + n]
    ensures n > 1 ==> GetU16(b', pos) == GetU16(b, pos)
  {
    assert forall i :: pos <= i < pos + n ==> b'[i] == b[i];
  }

  /**
   * Octets of a readable name may be followed by more octets, the hole may be filled or declared
   * filled, and the header may be overwritten: the name stays what it was.
   */
  lemma {:induction false} Frame(b: bytes, hole: nat, b': bytes, hole': nat, run: nat, pos: nat)
    requires run <= pos && NameAt(b, hole, run, pos).Some?
    requires Kept(b, hole, b', hole')
    ensures NameAt(b', hole', run, pos) == NameAt(b, hole, run, pos)
    ensures NameEnd(b', pos) == NameEnd(b, pos) <= |b|
    decreases run, |b| - pos
  {
    assert Readable(b, hole, pos, 1);
    hide NameAt, NameEnd, Kept, Readable;
    Window(b, hole, b', hole', pos, 1);
    NameStep(b, hole, run, pos);
    NameStep(b', hole', run, pos);
    var len := b[pos];
    if 0 < len < 64 {
      Window(b, hole, b', hole', pos, len + 1);
      Frame(b, hole, b', hole', run, pos + 1 + len);
    } else if len >= 0xC0 {
      Window(b, hole, b', hole', pos, 2);
      var target := Offset(GetU16(b, pos));
      Frame(b, hole, b', hole', target, target);
    }
  }

  /** A name found inside a run is found there as well when the run is taken to start later. */
  lemma {:induction false} LaterRun(b: bytes, hole: nat, run: nat, run': nat, pos: nat)
    requires run <= run' <= pos && NameAt(b, hole, run, pos).Some?
    ensures NameAt(b, hole, run', pos) == NameAt(b, hole, run, pos)
    decreases |b| - pos
  {
    if 0 < b[pos] < 64 {
      LaterRun(b, hole, run, run', pos + 1 + b[pos]);
    }
  }

  /** Whatever can be read from a message consists of labels of 1 to 63 octets. */
  lemma {:induction false} ReadNamesAreLegal(b: bytes, hole: nat, run: nat, pos: nat)
    requires run <= pos && NameAt(b, hole, run, pos).Some?
    ensures Legal(NameAt(b, hole, run, pos).value)
    decreases run, |b| - pos
  {
    if 0 < b[pos] < 64 {
      ReadNamesAreLegal(b, hole, run, pos + 1 + b[pos]);
    } else if b[pos] >= 0xC0 {
      var target := Offset(GetU16(b, pos));
      ReadNamesAreLegal(b, hole, target, target);
    }
  }

  lemma ReadLabel(b: bytes, hole: nat, run: nat, pos: nat, l: bytes)
    requires run <= pos && ValidLabel(l) && Readable(b, hole, pos, |l| + 1) && OctetsAt(b, pos, [|l|]) &&
             OctetsAt(b, pos + 1, l)
    ensures NameAt(b, hole, run, pos) == Before([l], NameAt(b, hole, run, pos + 1 + |l|))
    ensures NameEnd(b, pos) == NameEnd(b, pos + 1 + |l|)
  {
    assert Readable(b, hole, pos, 1);
    assert b[pos] == b[pos..pos + 1][0];
  }

  /** Encoded labels are read back, followed by whatever name continues the run. */
  lemma {:induction false} ReadEncoded(b: bytes, hole: nat, run: nat, pos: nat, labels: seq<bytes>)
    requires run <= pos && Legal(labels) && Readable(b, hole, pos, |Encode(labels)|) && OctetsAt(b, pos, Encode(labels))
    ensures NameAt(b, hole, run, pos) == Before(labels, NameAt(b, hole, run, pos + |Encode(labels)|))
    ensures NameEnd(b, pos) == NameEnd(b, pos + |Encode(labels)|)
    decreases |labels|
  {
    hide NameAt, NameEnd;
    if labels == [] {
      assert forall n: seq<bytes> :: [] + n == n;
    } else {
      var l, rest := labels[0], labels[1..];
      assert Encode(labels) == [|l|] + (l + Encode(rest));
      OctetsSplit(b, pos, [|l|], l + Encode(rest));
      OctetsSplit(b, pos + 1, l, Encode(rest));
      ReadEncoded(b, hole, run, pos + 1 + |l|, rest);
      ReadLabel(b, hole, run, pos, l);
      assert [l] + rest == labels;
      assert forall n: seq<bytes> :: [l] + (rest + n) == ([l] + rest) + n;
    }
  }

  lemma {:induction false} EncodeConcat(a: seq<bytes>, b: seq<bytes>)
    ensures Encode(a + b) == Encode(a) + Encode(b)
  {
    if a == [] {
      assert a + b == b;
    } else {
      assert (a + b)[1..] == a[1..] + b;
      EncodeConcat(a[1..], b);
    }
  }

  /** Every label takes at least its length octet; a legal one takes at least two octets. */
  lemma {:induction false} EncodeSize(labels: seq<bytes>)
    ensures |Encode(labels)| >= |labels|
    ensures Legal(labels) ==> |Encode(labels)| >= 2 * |labels|
  {
    if labels != [] { EncodeSize(labels[1..]); }
  }

  /** The shared labels are equal, and there are no more of them. */
  lemma {:induction false} CommonSuffixIs<T>(a: seq<T>, b: seq<T>)
    ensures var k := CommonSuffix(a, b);
            a[|a| - k..] == b[|b| - k..] &&
            (k < |a| && k < |b| ==> a[|a| - k - 1] != b[|b| - k - 1])
  {
    if a != [] && b != [] && a[|a| - 1] == b[|b| - 1] {
      CommonSuffixIs(a[..|a| - 1], b[..|b| - 1]);
      var k := CommonSuffix(a, b);
      SuffixOfInit(a, k);
      SuffixOfInit(b, k);
    }
  }

  lemma SuffixOfInit<T>(a: seq<T>, k: nat)
    requires 1 <= k <= |a|
    ensures a[|a| - k..] == a[..|a| - 1][|a| - k..] + [a[|a| - 1]]
  {
  }

  /** One more label on the left extends the shared suffix only if everything before it was shared. */
  lemma {:induction false} CommonSuffixCons<T>(x: T, rest: seq<T>, frags: seq<T>)
    ensures var k := CommonSuffix(rest, frags);
            CommonSuffix([x] + rest, frags) ==
              if k == |rest| && k < |frags| && frags[|frags| - k - 1] == x then k + 1 else k
    decreases |rest|
  {
    var a := [x] + rest;
    if frags != [] && a[|a| - 1] == frags[|frags| - 1] {
      var frags' := frags[..|frags| - 1];
      if rest == [] {
        assert a[..|a| - 1] == [];
      } else {
        assert a[..|a| - 1] == [x] + rest[..|rest| - 1];
        CommonSuffixCons(x, rest[..|rest| - 1], frags');
      }
    }
  }
}
